/** The value codecs: the delimiter-free chunk value, and the varint-framed values of the
    flat, log and sealing stores. Each encoder is stated by the bytes it produces; each
    decoder by which byte strings it accepts and which value re-encodes to them. */
module Codec {
  import opened ByteStrings
  import opened Merkle

  datatype Error =
    | TooShort | LengthMismatch | OddLength | BadVarint | BadFlag
    | UnsortedIndices | BadKeyLength | ChunkMissing | LatestMissing | BadCount | NoChunks
    | InvariantViolated | RootFailed | BadChunkSize | BadGenerator
    | SliceOutOfRange  // the run-time panic of a slice expression

  datatype Result<+T> = Ok(value: T) | Err(error: Error) {
    /** The error of a failed call, as a result of the caller's type. */
    function PropagateFailure<U>(): (r: Result<U>)
      ensures Err? ==> r.Err? && r.error == error
    {
      match this
      case Err(e) => Err(e)
      case Ok(_) => Err(InvariantViolated)
    }
  }

  const FLAG_LATEST: Byte := 0x01
  const FLAG_OLDER: Byte := 0x02

  // ---------------------------------------------------------------- byte layouts

  /** Fixed-width fields, one after another. */
  function Join(parts: seq<Bytes>): Bytes {
    if parts == [] then [] else Join(parts[..|parts| - 1]) + parts[|parts| - 1]
  }

  lemma JoinSnoc(parts: seq<Bytes>, p: Bytes)
    ensures Join(parts + [p]) == Join(parts) + p
  {
    assert (parts + [p])[..|parts|] == parts;
  }

  lemma {:induction false} JoinLength(parts: seq<Bytes>, w: nat)
    requires forall i :: 0 <= i < |parts| ==> |parts[i]| == w
    ensures |Join(parts)| == |parts| * w
  {
    if parts != [] {
      var n := |parts| - 1;
      JoinLength(parts[..n], w);
      assert n * w + w == (n + 1) * w;
    }
  }

  /** Fields of one width can be read back by position. */
  lemma {:induction false} JoinInjective(a: seq<Bytes>, b: seq<Bytes>, w: nat)
    requires |a| == |b|
    requires forall i :: 0 <= i < |a| ==> |a[i]| == w
    requires forall i :: 0 <= i < |b| ==> |b[i]| == w
    requires Join(a) == Join(b)
    ensures a == b
  {
    if a != [] {
      var n := |a| - 1;
      var (a', b') := (a[..n], b[..n]);
      JoinLength(a', w);
      JoinLength(b', w);
      SplitEqual(Join(a'), a[n], Join(b'), b[n]);
      JoinInjective(a', b', w);
      assert a == a' + [a[n]] && b == b' + [b[n]];
    }
  }

  lemma SplitEqual(a: Bytes, x: Bytes, b: Bytes, y: Bytes)
    requires |a| == |b| && a + x == b + y
    ensures a == b && x == y
  {
    assert a == (a + x)[..|a|] && b == (b + y)[..|a|];
    assert x == (a + x)[|a|..] && y == (b + y)[|a|..];
  }

  /** Each field stands at its position. */
  lemma {:induction false} JoinAt(parts: seq<Bytes>, w: nat, i: nat)
    requires forall j :: 0 <= j < |parts| ==> |parts[j]| == w
    requires i < |parts|
    ensures (i + 1) * w <= |Join(parts)| == |parts| * w
    ensures Join(parts)[i * w..(i + 1) * w] == parts[i]
  {
    JoinBehind(parts, i);
    JoinLength(parts[..i], w);
    JoinLength(parts, w);
    assert i * w + w == (i + 1) * w;
  }

  lemma {:induction false} JoinBehind(parts: seq<Bytes>, i: nat)
    requires i < |parts|
    ensures var at := |Join(parts[..i])|;
      at + |parts[i]| <= |Join(parts)| && Join(parts)[at..at + |parts[i]|] == parts[i]
  {
    var init := parts[..|parts| - 1];
    if i < |init| {
      JoinBehind(init, i);
      assert init[..i] == parts[..i];
    } else {
      assert parts[..i] == init;
    }
  }

  function Fields16(rel: seq<U16>): (s: seq<Bytes>)
    ensures |s| == |rel| && forall i :: 0 <= i < |s| ==> |s[i]| == 2
  {
    seq(|rel|, i requires 0 <= i < |rel| => BE(rel[i], 2))
  }

  /** serializeUint16Slice */
  function Words(rel: seq<U16>): (b: Bytes)
    ensures |b| == 2 * |rel|
  {
    JoinLength(Fields16(rel), 2);
    Join(Fields16(rel))
  }

  lemma Field16(b: Bytes)
    requires |b| == 2
    ensures FromBE(b) < 0x1_0000 && BE(FromBE(b), 2) == b
  {
    Pow256Eight();
    EncodeDecode(b);
  }

  lemma WordsSnoc(rel: seq<U16>, v: U16)
    ensures Words(rel + [v]) == Words(rel) + BE(v, 2)
  {
    assert Fields16(rel + [v]) == Fields16(rel) + [BE(v, 2)];
    JoinSnoc(Fields16(rel), BE(v, 2));
  }

  /** Each 16-bit number as two bytes, the higher first. */
  lemma WordsDigits(rel: seq<U16>, i: nat)
    requires i < |rel|
    ensures Words(rel)[2 * i] == rel[i] / 256 && Words(rel)[2 * i + 1] == rel[i] % 256
  {
    JoinAt(Fields16(rel), 2, i);
    BE16Digits(rel[i]);
    assert Words(rel)[i * 2..(i + 1) * 2] == Fields16(rel)[i];
  }

  lemma WordsInjective(a: seq<U16>, b: seq<U16>)
    requires Words(a) == Words(b)
    ensures a == b
  {
    var (fa, fb) := (Fields16(a), Fields16(b));
    JoinInjective(fa, fb, 2);
    Pow256Eight();
    forall i | 0 <= i < |a| ensures a[i] == b[i] {
      assert fa[i] == fb[i];
      DecodeEncode(a[i], 2);
      DecodeEncode(b[i], 2);
    }
  }

  function Quads(log: seq<U64>): (b: Bytes)
    ensures |b| == 8 * |log|
  {
    assert forall i :: 0 <= i < |log| ==> |Leaves(log)[i]| == 8;
    JoinLength(Leaves(log), 8);
    Join(Leaves(log))
  }

  /** Each index as its eight bytes. */
  lemma QuadsAt(log: seq<U64>, i: nat)
    requires i < |log|
    ensures Quads(log)[8 * i..8 * i + 8] == BE64(log[i])
  {
    JoinAt(Leaves(log), 8, i);
  }

  lemma QuadsInjective(a: seq<U64>, b: seq<U64>)
    requires Quads(a) == Quads(b)
    ensures a == b
  {
    var (fa, fb) := (Leaves(a), Leaves(b));
    JoinInjective(fa, fb, 8);
    forall i | 0 <= i < |a| ensures a[i] == b[i] {
      assert fa[i] == fb[i];
      BE64RoundTrip(a[i]);
      BE64RoundTrip(b[i]);
    }
  }

  /** SerializeRange: the size, then the frontier hashes. */
  function RangeBytes(r: Range): (b: Bytes)
    requires r.Valid()
    ensures |b| == 8 + 32 * PopCount(r.size) <= 2056
    ensures b[..8] == BE64(r.size)
  {
    JoinLength(r.hashes, 32);
    PopCountOfU64(r.size);
    BE64(r.size) + Join(r.hashes)
  }

  /** The size, then each hash at its position. */
  lemma RangeBytesAt(r: Range, i: nat)
    requires r.Valid() && i < |r.hashes|
    ensures RangeBytes(r)[..8] == BE64(r.size)
    ensures RangeBytes(r)[8 + 32 * i..8 + 32 * i + 32] == r.hashes[i]
  {
    JoinAt(r.hashes, 32, i);
    assert RangeBytes(r)[8..] == Join(r.hashes);
    hide RangeBytes, Join, PopCount, BE64;
    assert RangeBytes(r)[8 + 32 * i..8 + 32 * i + 32] == RangeBytes(r)[8..][32 * i..32 * i + 32];
  }

  lemma RangeBytesInjective(a: Range, b: Range)
    requires a.Valid() && b.Valid() && RangeBytes(a) == RangeBytes(b)
    ensures a == b
  {
    BE64RoundTrip(a.size);
    BE64RoundTrip(b.size);
    assert Join(a.hashes) == RangeBytes(a)[8..] == RangeBytes(b)[8..] == Join(b.hashes);
    JoinInjective(a.hashes, b.hashes, 32);
  }

  /** serializeChunkValue: no delimiter between the range and the relative indices. */
  function ChunkBytes(r: Range, rel: seq<U16>): Bytes
    requires r.Valid()
  {
    RangeBytes(r) + Words(rel)
  }

  /** The byte strings that deserializeChunkValue accepts. */
  predicate WellFormedChunk(data: Bytes) {
    |data| >= 8 &&
    var boundary := 8 + 32 * PopCount(FromBE(data[..8]));
    boundary <= |data| && (|data| - boundary) % 2 == 0
  }

  /** The boundary between the two parts is recovered from the first eight bytes. */
  lemma ChunkBytesWellFormed(r: Range, rel: seq<U16>)
    requires r.Valid()
    ensures WellFormedChunk(ChunkBytes(r, rel))
  {
    BE64RoundTrip(r.size);
    hide PopCount, Join, BE, FromBE, Words, Fields16, RangeBytes;
    assert ChunkBytes(r, rel)[..8] == RangeBytes(r)[..8];
    Even(|rel|);
  }

  lemma Even(n: nat)
    ensures (2 * n) % 2 == 0
  {
  }

  /** The chunk codec is injective: one byte string, one chunk. */
  lemma ChunkBytesInjective(r: Range, rel: seq<U16>, r': Range, rel': seq<U16>)
    requires r.Valid() && r'.Valid()
    requires ChunkBytes(r, rel) == ChunkBytes(r', rel')
    ensures r == r' && rel == rel'
  {
    var data := ChunkBytes(r, rel);
    assert data[..8] == RangeBytes(r)[..8] && data[..8] == RangeBytes(r')[..8];
    BE64RoundTrip(r.size);
    BE64RoundTrip(r'.size);
    var n := |RangeBytes(r)|;
    assert data[..n] == RangeBytes(r) && data[n..] == Words(rel);
    assert data[..n] == RangeBytes(r') && data[n..] == Words(rel');
    RangeBytesInjective(r, r');
    WordsInjective(rel, rel');
  }

  // ---------------------------------------------------------------- varint frames

  /** binary.PutUvarint */
  function PutUvarint(x: nat): (b: Bytes)
    ensures |b| > 0
  {
    if x < 128 then [x] else [x % 128 + 128] + PutUvarint(x / 128)
  }

  /** binary.Uvarint from position `i`: the value and the position after it, or a position
      that is not above 0 when the buffer is short or the value overflows 64 bits. */
  function Uvarint(buf: Bytes, i: nat): (r: (nat, int))
    requires i <= |buf|
    ensures r.1 <= |buf|
    decreases |buf| - i
  {
    if i == |buf| then (0, 0)
    else if i == 10 then (0, -11)
    else if buf[i] < 128 then
      if i == 9 && buf[i] > 1 then (0, -10) else (buf[i], i + 1)
    else
      var (x, n) := Uvarint(buf, i + 1);
      if n <= 0 then (0, n) else (buf[i] - 128 + 128 * x, n)
  }

  /** The base-128 digits, the lowest first, all but the last marked by the high bit. */
  lemma PutUvarintDigits(x: nat)
    requires x < 16384
    ensures PutUvarint(x) == if x < 128 then [x] else [x % 128 + 128, x / 128]
  {
  }

  /** Digit by digit, the value that Uvarint reads. */
  lemma UvarintDigits(buf: Bytes, i: nat)
    requires i < |buf| && i < 10 && Uvarint(buf, i).1 > 0
    ensures buf[i] < 128 ==> Uvarint(buf, i) == (buf[i], i + 1)
    ensures buf[i] >= 128 ==>
      Uvarint(buf, i) == (buf[i] - 128 + 128 * Uvarint(buf, i + 1).0, Uvarint(buf, i + 1).1)
  {
  }

  /** What it reads of the lengths that the encoders write. */
  lemma UvarintOfTwoBytes(buf: Bytes)
    ensures |buf| >= 1 && buf[0] < 128 ==> Uvarint(buf, 0) == (buf[0], 1)
    ensures |buf| >= 2 && buf[0] >= 128 && buf[1] < 128 ==> Uvarint(buf, 0) == (128 * (buf[1] as nat) + buf[0] - 128, 2)
  {
    if |buf| >= 2 && buf[0] >= 128 && buf[1] < 128 {
      assert Uvarint(buf, 1) == (buf[1], 2);
    }
  }

  /** It succeeds exactly when a byte without the high bit comes within ten bytes, and a tenth
      byte is at most 1. */
  lemma {:induction false} UvarintEnds(buf: Bytes, i: nat, p: nat)
    requires i <= p && i <= |buf| && i <= 10
    ensures Uvarint(buf, i).1 == p + 1 <==>
      && p < |buf| && p < 10 && buf[p] < 128 && (p == 9 ==> buf[9] <= 1)
      && forall k :: i <= k < p ==> buf[k] >= 128
    decreases p - i
  {
    if i < |buf| && i < 10 && buf[i] >= 128 {
      UvarintStops(buf, i + 1);
      if i < p { UvarintEnds(buf, i + 1, p); }
    }
  }

  lemma {:induction false} UvarintStops(buf: Bytes, i: nat)
    requires i <= |buf| && i <= 10
    ensures Uvarint(buf, i).1 <= 0 || Uvarint(buf, i).1 > i
    decreases |buf| - i
  {
    if i < |buf| && i < 10 && buf[i] >= 128 {
      UvarintStops(buf, i + 1);
    }
  }

  /** A bound for the value that Uvarint reads from position `i` on. */
  function UvarintCap(i: nat): (cap: nat)
    ensures cap >= 2
    decreases 10 - i
  {
    if i >= 9 then 2 else 128 * UvarintCap(i + 1)
  }

  /** Uvarint reads at most ten bytes, and a 64-bit value. */
  lemma {:induction false} UvarintFits(buf: Bytes, i: nat)
    requires i <= |buf| && i <= 10
    ensures Uvarint(buf, i).0 < UvarintCap(i)
    ensures Uvarint(buf, i).1 <= 10
    decreases |buf| - i
  {
    if i < |buf| && i < 10 && buf[i] >= 128 {
      UvarintFits(buf, i + 1);
    }
  }

  lemma UvarintCapIs64Bits()
    ensures UvarintCap(0) == TWO_64
  {
    assert UvarintCap(6) == 128 * (128 * (128 * 2));
    assert UvarintCap(3) == 128 * (128 * (128 * UvarintCap(6)));
    assert UvarintCap(0) == 128 * (128 * (128 * UvarintCap(3)));
  }

  const TWO_63: nat := 0x8000_0000_0000_0000

  /** The 64-bit int with the bits of `x`: what a conversion or a sum gives in Go. */
  function Int64(x: int): int {
    var w := x % TWO_64;
    if w < TWO_63 then w else w - TWO_64
  }

  /** A frame length is at most 2056, so it takes at most two varint bytes. */
  lemma UvarintRoundTrip(x: nat, rest: Bytes)
    requires x <= 2056
    ensures |PutUvarint(x)| <= 2
    ensures Uvarint(PutUvarint(x) + rest, 0) == (x, |PutUvarint(x)|)
  {
    var p := PutUvarint(x);
    if x >= 128 {
      assert p == [x % 128 + 128] + [x / 128];
      assert Uvarint(p + rest, 1) == (x / 128, 2);
    }
  }

  /** A serialized range behind its length. */
  function Frame(r: Range): Bytes
    requires r.Valid()
  {
    PutUvarint(|RangeBytes(r)|) + RangeBytes(r)
  }

  function FlatBytes(r: Range, log: seq<U64>): Bytes
    requires r.Valid()
  {
    Frame(r) + Quads(log)
  }

  function LogLatestBytes(r: Range): Bytes
    requires r.Valid()
  {
    [FLAG_LATEST] + Frame(r)
  }

  function SealingLatestBytes(prev: U64, cum: U64, r: Range, rel: seq<U16>): Bytes
    requires r.Valid()
  {
    [FLAG_LATEST] + BE64(prev) + BE64(cum) + Frame(r) + Words(rel)
  }

  function SealingOlderBytes(prev: U64, cum: U64, rel: seq<U16>): Bytes {
    [FLAG_OLDER] + BE64(prev) + BE64(cum) + Words(rel)
  }

  function ScanLatestBytes(cum: U64, r: Range, rel: seq<U16>): Bytes
    requires r.Valid()
  {
    [FLAG_LATEST] + BE64(cum) + Frame(r) + Words(rel)
  }

  function ScanOlderBytes(rel: seq<U16>): Bytes {
    [FLAG_OLDER] + Words(rel)
  }

  /** The stored values, field by field, with the flags in figures. */
  lemma ValueLayouts(prev: U64, cum: U64, r: Range, rel: seq<U16>, log: seq<U64>)
    requires r.Valid()
    ensures var framed := PutUvarint(8 + 32 * |r.hashes|) + RangeBytes(r);
      && FlatBytes(r, log) == framed + Quads(log)
      && LogLatestBytes(r) == [1] + framed
      && SealingLatestBytes(prev, cum, r, rel) == [1] + BE64(prev) + BE64(cum) + framed + Words(rel)
      && ScanLatestBytes(cum, r, rel) == [1] + BE64(cum) + framed + Words(rel)
    ensures SealingOlderBytes(prev, cum, rel) == [2] + BE64(prev) + BE64(cum) + Words(rel)
    ensures ScanOlderBytes(rel) == [2] + Words(rel)
    ensures ChunkBytes(r, rel) == RangeBytes(r) + Words(rel)
  {
    hide PutUvarint, RangeBytes, Quads, Words, BE64;
  }

  // ---------------------------------------------------------------- encoders

  /** copy(buf[at:], src), used to fill a buffer from left to right. */
  method CopyInto(buf: array<Byte>, at: nat, src: Bytes)
    requires at + |src| <= buf.Length
    modifies buf
    ensures buf[..at + |src|] == old(buf[..at]) + src
  {
    forall i | 0 <= i < |src| {
      buf[at + i] := src[i];
    }
    assert buf[..at] == old(buf[..at]);
  }

  lemma {:induction false} JoinPrefixLength(parts: seq<Bytes>, i: nat)
    requires i < |parts|
    ensures |Join(parts[..i])| + |parts[i]| <= |Join(parts)|
    ensures Join(parts[..i + 1]) == Join(parts[..i]) + parts[i]
  {
    JoinSnoc(parts[..i], parts[i]);
    assert parts[..i] + [parts[i]] == parts[..i + 1];
    if i + 1 < |parts| {
      var init := parts[..|parts| - 1];
      JoinPrefixLength(init, i);
      assert init[..i] == parts[..i];
    } else {
      assert parts[..i + 1] == parts;
    }
  }

  /** Fills a buffer with fields from position `at` on. */
  method PutFields(buf: array<Byte>, at: nat, fields: seq<Bytes>)
    requires at + |Join(fields)| <= buf.Length
    modifies buf
    ensures buf[..at + |Join(fields)|] == old(buf[..at]) + Join(fields)
  {
    ghost var done := buf[..at];
    assert Join([]) == [];
    hide Join;
    var i, off := 0, at;
    while i < |fields|
      invariant 0 <= i <= |fields|
      invariant off == at + |Join(fields[..i])| <= buf.Length
      invariant buf[..off] == done + Join(fields[..i])
    {
      JoinPrefixLength(fields, i);
      CopyInto(buf, off, fields[i]);
      off := off + |fields[i]|;
      i := i + 1;
    }
    assert fields[..i] == fields;
  }

  method SerializeRange(r: CompactRange) returns (b: Bytes)
    requires r.Value().Valid()
    ensures b == RangeBytes(r.Value())
  {
    var numHashes := |r.hashes|;
    JoinLength(r.hashes, 32);
    hide Join, BE, PopCount;
    var buf := new Byte[8 + numHashes * 32](_ => 0);
    CopyInto(buf, 0, BE64(r.size));
    PutFields(buf, 8, r.hashes);
    return buf[..];
  }

  method SerializeUint16Slice(slice: seq<U16>) returns (b: Bytes)
    ensures b == Words(slice)
  {
    var fields := Fields16(slice);
    JoinLength(fields, 2);
    var buf := new Byte[2 * |slice|](_ => 0);
    PutFields(buf, 0, fields);
    return buf[..];
  }

  lemma ChunkParts(r: Range, rel: seq<U16>)
    requires r.Valid()
    ensures ChunkBytes(r, rel) == RangeBytes(r) + Words(rel)
  {
  }

  method SerializeChunkValue(r: CompactRange, rel: seq<U16>) returns (b: Bytes)
    requires r.Value().Valid()
    ensures b == ChunkBytes(r.Value(), rel)
  {
    var range := SerializeRange(r);
    var words := SerializeUint16Slice(rel);
    ChunkParts(r.Value(), rel);
    hide *;
    var buf := new Byte[|range| + |words|](_ => 0);
    CopyInto(buf, 0, range);
    assert buf[..|range|] == range;
    CopyInto(buf, |range|, words);
    assert buf[..] == buf[..|range| + |words|];
    return buf[..];
  }

  /** A serialized range behind its varint length. */
  lemma FrameParts(r: Range)
    requires r.Valid()
    ensures Frame(r) == PutUvarint(|RangeBytes(r)|) + RangeBytes(r)
  {
  }

  lemma FlatParts(r: Range, log: seq<U64>)
    requires r.Valid()
    ensures FlatBytes(r, log) == Frame(r) + Join(Leaves(log))
  {
  }

  lemma SealingLatestParts(prev: U64, cum: U64, r: Range, rel: seq<U16>)
    requires r.Valid()
    ensures SealingLatestBytes(prev, cum, r, rel) == [FLAG_LATEST] + BE64(prev) + BE64(cum) + Frame(r) + Words(rel)
  {
  }

  lemma ScanLatestParts(cum: U64, r: Range, rel: seq<U16>)
    requires r.Valid()
    ensures ScanLatestBytes(cum, r, rel) == [FLAG_LATEST] + BE64(cum) + Frame(r) + Words(rel)
  {
  }

  method SerializeFrame(r: CompactRange) returns (b: Bytes)
    requires r.Value().Valid()
    ensures b == Frame(r.Value())
  {
    var range := SerializeRange(r);
    FrameParts(r.Value());
    hide *;
    var varint := PutUvarint(|range|);
    var buf := new Byte[|varint| + |range|](_ => 0);
    CopyInto(buf, 0, varint);
    assert buf[..|varint|] == varint;
    CopyInto(buf, |varint|, range);
    assert buf[..] == buf[..|varint| + |range|];
    return buf[..];
  }

  method SerializeFlatValue(r: CompactRange, log: seq<U64>) returns (b: Bytes)
    requires r.Value().Valid()
    ensures b == FlatBytes(r.Value(), log)
  {
    var frame := SerializeFrame(r);
    var fields := Leaves(log);
    assert forall i :: 0 <= i < |log| ==> |fields[i]| == 8;
    JoinLength(fields, 8);
    FlatParts(r.Value(), log);
    hide *;
    var buf := new Byte[|frame| + 8 * |log|](_ => 0);
    CopyInto(buf, 0, frame);
    assert buf[..|frame|] == frame;
    PutFields(buf, |frame|, fields);
    assert buf[..] == buf[..|frame| + 8 * |log|];
    return buf[..];
  }

  method SerializeLogLatest(r: CompactRange) returns (b: Bytes)
    requires r.Value().Valid()
    ensures b == LogLatestBytes(r.Value())
  {
    var frame := SerializeFrame(r);
    hide Frame, PopCount;
    var buf := new Byte[1 + |frame|](_ => 0);
    buf[0] := FLAG_LATEST;
    assert buf[..1] == [FLAG_LATEST];
    CopyInto(buf, 1, frame);
    return buf[..];
  }

  /** The fixed-width head of the chain-walk store's values. */
  method PutHeader(buf: array<Byte>, flag: Byte, prev: U64, cum: U64)
    requires buf.Length >= 17
    modifies buf
    ensures buf[..17] == [flag] + BE64(prev) + BE64(cum)
  {
    hide BE64;
    PutFlagged(buf, flag, prev);
    CopyInto(buf, 9, BE64(cum));
  }

  method PutFlagged(buf: array<Byte>, flag: Byte, field: U64)
    requires buf.Length >= 9
    modifies buf
    ensures buf[..9] == [flag] + BE64(field)
  {
    hide BE64;
    buf[0] := flag;
    assert buf[..1] == [flag];
    CopyInto(buf, 1, BE64(field));
  }

  method SerializeSealingLatest(prev: U64, cum: U64, r: CompactRange, rel: seq<U16>) returns (b: Bytes)
    requires r.Value().Valid()
    ensures b == SealingLatestBytes(prev, cum, r.Value(), rel)
  {
    var frame := SerializeFrame(r);
    var words := SerializeUint16Slice(rel);
    SealingLatestParts(prev, cum, r.Value(), rel);
    hide *;
    var buf := new Byte[17 + |frame| + |words|](_ => 0);
    PutHeader(buf, FLAG_LATEST, prev, cum);
    ghost var header := buf[..17];
    CopyInto(buf, 17, frame);
    assert buf[..17 + |frame|] == header + frame;
    CopyInto(buf, 17 + |frame|, words);
    assert buf[..] == buf[..17 + |frame| + |words|];
    return buf[..];
  }

  method SerializeSealingOlder(prev: U64, cum: U64, rel: seq<U16>) returns (b: Bytes)
    ensures b == SealingOlderBytes(prev, cum, rel)
  {
    var words := SerializeUint16Slice(rel);
    var buf := new Byte[17 + |words|](_ => 0);
    PutHeader(buf, FLAG_OLDER, prev, cum);
    CopyInto(buf, 17, words);
    assert buf[..] == buf[..17 + |words|];
    return buf[..];
  }

  method SerializeScanLatest(cum: U64, r: CompactRange, rel: seq<U16>) returns (b: Bytes)
    requires r.Value().Valid()
    ensures b == ScanLatestBytes(cum, r.Value(), rel)
  {
    var frame := SerializeFrame(r);
    var words := SerializeUint16Slice(rel);
    ScanLatestParts(cum, r.Value(), rel);
    hide *;
    var buf := new Byte[9 + |frame| + |words|](_ => 0);
    PutFlagged(buf, FLAG_LATEST, cum);
    ghost var header := buf[..9];
    CopyInto(buf, 9, frame);
    assert buf[..9 + |frame|] == header + frame;
    CopyInto(buf, 9 + |frame|, words);
    assert buf[..] == buf[..9 + |frame| + |words|];
    return buf[..];
  }

  method SerializeScanOlder(rel: seq<U16>) returns (b: Bytes)
    ensures b == ScanOlderBytes(rel)
  {
    var words := SerializeUint16Slice(rel);
    var buf := new Byte[1 + |words|](_ => 0);
    buf[0] := FLAG_OLDER;
    assert buf[..1] == [FLAG_OLDER];
    CopyInto(buf, 1, words);
    return buf[..];
  }

  // ---------------------------------------------------------------- decoders

  method DeserializeRange(data: Bytes) returns (r: Result<Range>)
    ensures r.Ok? <==> |data| >= 8 && |data| == 8 + 32 * PopCount(FromBE(data[..8]))
    ensures r.Ok? ==> r.value.Valid() && RangeBytes(r.value) == data
    ensures r.Err? ==> r.error == if |data| < 8 then TooShort else LengthMismatch
  {
    if |data| < 8 {
      return Err(TooShort);
    }
    FromBE64Fits(data[..8]);
    hide BE, FromBE, PopCount, Join;
    var size := FromBE(data[..8]);
    var numHashes := PopCount(size);
    if |data| != 8 + numHashes * 32 {
      return Err(LengthMismatch);
    }
    var hashes := SplitHashes(data[8..], numHashes);
    assert data == data[..8] + data[8..];
    return Ok(Range(size, hashes));
  }

  /** The loop that copies the hashes out of the buffer. */
  method SplitHashes(data: Bytes, numHashes: nat) returns (hashes: seq<Hash>)
    requires |data| == numHashes * 32
    ensures |hashes| == numHashes && Join(hashes) == data
  {
    hashes := [];
    assert Join([]) == [];
    hide Join;
    var i := 0;
    while i < numHashes
      invariant 0 <= i <= numHashes && |hashes| == i
      invariant Join(hashes) == data[..i * 32]
    {
      var hash: Hash := data[i * 32..(i + 1) * 32];
      JoinSnoc(hashes, hash);
      hashes := hashes + [hash];
      i := i + 1;
    }
  }

  method DeserializeUint16Slice(buf: Bytes) returns (r: Result<seq<U16>>)
    ensures r.Ok? <==> |buf| % 2 == 0
    ensures r.Ok? ==> Words(r.value) == buf
    ensures r.Err? ==> r.error == OddLength
  {
    if |buf| % 2 != 0 {
      return Err(OddLength);
    }
    hide *;
    var slice: seq<U16> := [];
    var i := 0;
    while i < |buf| / 2
      invariant 0 <= i <= |buf| / 2 && |slice| == i
      invariant Words(slice) == buf[..2 * i]
    {
      var field := buf[2 * i..2 * i + 2];
      Field16(field);
      WordsSnoc(slice, FromBE(field));
      assert buf[..2 * i] + field == buf[..2 * i + 2];
      slice := slice + [FromBE(field)];
      i := i + 1;
    }
    return Ok(slice);
  }

  /** Accepts exactly the well-formed byte strings, and what it returns re-encodes to the
      input: with ChunkBytesInjective and ChunkBytesWellFormed, a bijection. */
  method DeserializeChunkValue(data: Bytes) returns (r: Result<(Range, seq<U16>)>)
    ensures r.Ok? <==> WellFormedChunk(data)
    ensures r.Ok? ==> r.value.0.Valid() && ChunkBytes(r.value.0, r.value.1) == data
    ensures r.Err? ==>
      r.error == if |data| < 8 || |data| < 8 + 32 * PopCount(FromBE(data[..8])) then TooShort else OddLength
  {
    if |data| < 8 {
      return Err(TooShort);
    }
    var size := FromBE(data[..8]);
    var n := 8 + PopCount(size) * 32;
    if |data| < n {
      return Err(TooShort);
    }
    assert data[..n][..8] == data[..8];
    var range := DeserializeRange(data[..n]);
    if range.Err? {
      return range.PropagateFailure();
    }
    var rel := DeserializeUint16Slice(data[n..]);
    if rel.Err? {
      return rel.PropagateFailure();
    }
    assert data == data[..n] + data[n..];
    return Ok((range.value, rel.value));
  }

  /** A framed range stands between `at` and `end`: its length as a varint, which may be
      padded, then its bytes. */
  ghost predicate IsFrame(data: Bytes, at: nat, v: Range, end: nat) {
    && v.Valid() && end <= |data|
    && var begin := end - |RangeBytes(v)|;
    && at < begin
    && Uvarint(data[at..], 0) == (|RangeBytes(v)|, begin - at)
    && data[begin..end] == RangeBytes(v)
  }

  /** What the encoders write is a frame, whatever follows it. */
  lemma EncodedFrame(data: Bytes, at: nat, v: Range, rest: Bytes)
    requires at <= |data| && v.Valid() && data[at..] == Frame(v) + rest
    ensures var end := |data| - |rest|;
      end >= 0 && IsFrame(data, at, v, end) && data[end..] == rest
  {
    hide PutUvarint, Uvarint, RangeBytes;
    var p := PutUvarint(|RangeBytes(v)|);
    UvarintRoundTrip(|RangeBytes(v)|, RangeBytes(v) + rest);
    assert data[at..] == p + (RangeBytes(v) + rest);
    var begin := at + |p|;
    assert data[begin..] == data[at..][|p|..] == RangeBytes(v) + rest;
    assert data[begin..begin + |RangeBytes(v)|] == data[begin..][..|RangeBytes(v)|];
    assert data[begin + |RangeBytes(v)|..] == data[begin..][|RangeBytes(v)|..];
  }

  /** The frames whose length takes one or two bytes; the second may pad. */
  lemma FrameForms(data: Bytes, at: nat, v: Range)
    requires v.Valid()
    ensures var n := |RangeBytes(v)|;
      && (at + 1 + n <= |data| && data[at] < 128 ==>
           (IsFrame(data, at, v, at + 1 + n) <==> data[at] == n && data[at + 1..at + 1 + n] == RangeBytes(v)))
      && (at + 2 + n <= |data| && data[at] >= 128 && data[at + 1] < 128 ==>
           (IsFrame(data, at, v, at + 2 + n) <==>
             128 * (data[at + 1] as nat) + data[at] - 128 == n && data[at + 2..at + 2 + n] == RangeBytes(v)))
  {
    hide Uvarint, RangeBytes, PopCount;
    if at <= |data| {
      UvarintOfTwoBytes(data[at..]);
    }
  }

  /** The arithmetic on the declared length is exact for frames that fit the buffer, and a
      length that overflows a Go int makes the slice bounds run backwards. */
  lemma FrameBounds(begin: nat, n: nat)
    requires begin <= 27 && n < TWO_64
    ensures var end := Int64(begin + Int64(n));
      if n < TWO_63 - begin then end == begin + n else end < begin
  {
  }

  /** The length-prefixed range at position `at`, and the position after it: accepts exactly
      the frames. A declared length that overflows a Go int panics. */
  method ReadFrame(data: Bytes, at: nat) returns (r: Result<(Range, nat)>)
    requires at <= |data| && at <= 17
    ensures r.Ok? ==> IsFrame(data, at, r.value.0, r.value.1) && r.value.1 <= |data|
    ensures forall v: Range, end: nat :: IsFrame(data, at, v, end) ==> r == Ok((v, end))
    ensures r == Err(SliceOutOfRange) <==>
      var (n, p) := Uvarint(data[at..], 0);
      p > 0 && n >= TWO_63 - at - p
    ensures var (n, p) := Uvarint(data[at..], 0);
      && (p <= 0 ==> r == Err(BadVarint))
      && (p > 0 && n < TWO_63 - at - p && |data| < at + p + n ==> r == Err(TooShort))
  {
    hide Uvarint, UvarintCap, PutUvarint, Join, PopCount, BE, FromBE, Int64, IsFrame;
    var (rangeLen, varintLen) := Uvarint(data[at..], 0);
    UvarintFits(data[at..], 0);
    UvarintCapIs64Bits();
    if varintLen <= 0 {
      NoFrame(data, at, 0);
      return Err(BadVarint);
    }
    var begin := at + varintLen;
    var end := Int64(begin + Int64(rangeLen));
    FrameBounds(begin, rangeLen);
    if |data| < end {
      NoFrame(data, at, begin);
      return Err(TooShort);
    }
    if end < begin {
      NoFrame(data, at, begin);
      return Err(SliceOutOfRange);
    }
    var range := DeserializeRange(data[begin..end]);
    FrameIsUnique(data, at, begin, end, range);
    if range.Err? {
      return range.PropagateFailure();
    }
    return Ok((range.value, end));
  }

  lemma NoFrame(data: Bytes, at: nat, begin: nat)
    requires at <= |data|
    requires var (n, p) := Uvarint(data[at..], 0);
      p <= 0 || (begin == at + p && (|data| < begin + n || n > 2056))
    ensures forall v: Range, end: nat :: !IsFrame(data, at, v, end)
  {
    hide Uvarint, RangeBytes, PopCount;
  }

  lemma FrameIsUnique(data: Bytes, at: nat, begin: nat, end: nat, range: Result<Range>)
    requires at < begin <= end <= |data| && Uvarint(data[at..], 0) == (end - begin, begin - at)
    requires var b := data[begin..end];
      && (range.Ok? <==> |b| >= 8 && |b| == 8 + 32 * PopCount(FromBE(b[..8])))
      && (range.Ok? ==> range.value.Valid() && RangeBytes(range.value) == b)
    ensures range.Ok? ==> IsFrame(data, at, range.value, end)
    ensures forall v: Range, e: nat :: IsFrame(data, at, v, e) ==> range == Ok(v) && e == end
  {
    hide Uvarint, PopCount, BE, FromBE, Join;
    forall v: Range, e: nat | IsFrame(data, at, v, e)
      ensures range == Ok(v) && e == end
    {
      BE64RoundTrip(v.size);
      RangeBytesInjective(range.value, v);
    }
  }

  method DeserializeQuads(buf: Bytes) returns (r: Result<seq<U64>>)
    ensures r.Ok? <==> |buf| % 8 == 0
    ensures r.Ok? ==> Quads(r.value) == buf
    ensures r.Err? ==> r.error == LengthMismatch
  {
    if |buf| % 8 != 0 {
      return Err(LengthMismatch);
    }
    hide *;
    var log: seq<U64> := [];
    var i := 0;
    while i < |buf| / 8
      invariant 0 <= i <= |buf| / 8 && |log| == i
      invariant Quads(log) == buf[..8 * i]
    {
      var field := buf[8 * i..8 * i + 8];
      FromBE64Fits(field);
      QuadsSnoc(log, FromBE(field));
      assert buf[..8 * i] + field == buf[..8 * i + 8];
      log := log + [FromBE(field)];
      i := i + 1;
    }
    return Ok(log);
  }

  lemma QuadsSnoc(log: seq<U64>, v: U64)
    ensures Quads(log + [v]) == Quads(log) + BE64(v)
  {
    assert Leaves(log + [v]) == Leaves(log) + [BE64(v)];
    JoinSnoc(Leaves(log), BE64(v));
  }

  /** The values that the flat store's decoder accepts, and what they mean. */
  ghost predicate IsFlatValue(data: Bytes, v: Range, log: seq<U64>) {
    var end := |data| - 8 * |log|;
    end >= 0 && IsFrame(data, 0, v, end) && data[end..] == Quads(log)
  }

  /** deserializeValue of the flat store. */
  method DeserializeFlatValue(data: Bytes) returns (r: Result<(Range, seq<U64>)>)
    ensures r.Ok? ==> IsFlatValue(data, r.value.0, r.value.1)
    ensures forall v: Range, log: seq<U64> :: IsFlatValue(data, v, log) ==> r == Ok((v, log))
    ensures forall v: Range, log: seq<U64> :: v.Valid() && data == FlatBytes(v, log) ==> r == Ok((v, log))
  {
    hide IsFrame, Quads, FlatBytes;
    forall v: Range, log: seq<U64> | v.Valid() && data == FlatBytes(v, log)
      ensures IsFlatValue(data, v, log)
    {
      FlatBytesAreFlatValue(v, log);
    }
    var frame := ReadFrame(data, 0);
    if frame.Err? {
      return frame.PropagateFailure();
    }
    var log := DeserializeQuads(data[frame.value.1..]);
    forall v: Range, l: seq<U64> | IsFlatValue(data, v, l)
      ensures log == Ok(l)
    {
      QuadsInjective(log.value, l);
    }
    if log.Err? {
      return log.PropagateFailure();
    }
    return Ok((frame.value.0, log.value));
  }

  lemma FlatBytesAreFlatValue(v: Range, log: seq<U64>)
    requires v.Valid()
    ensures IsFlatValue(FlatBytes(v, log), v, log)
  {
    var data := FlatBytes(v, log);
    assert data[0..] == data;
    hide IsFrame, Quads, Frame;
    EncodedFrame(data, 0, v, Quads(log));
  }

  /** deserializeLatest of the log store; bytes behind the frame are ignored. */
  method DeserializeLogLatest(data: Bytes) returns (r: Result<Range>)
    ensures |data| < 2 ==> r == Err(TooShort)
    ensures |data| >= 2 && data[0] != 1 ==> r == Err(BadFlag)
    ensures r.Ok? ==> |data| >= 2 && data[0] == FLAG_LATEST && exists end: nat :: IsFrame(data, 1, r.value, end)
    ensures |data| >= 2 && data[0] == FLAG_LATEST ==>
      forall v: Range, end: nat :: IsFrame(data, 1, v, end) ==> r == Ok(v)
    ensures forall v: Range :: v.Valid() && data == LogLatestBytes(v) ==> r == Ok(v)
  {
    hide IsFrame, Frame;
    forall v: Range | v.Valid() && data == LogLatestBytes(v)
      ensures |data| >= 2 && IsFrame(data, 1, v, |data|)
    {
      assert data[1..] == Frame(v) + [];
      EncodedFrame(data, 1, v, []);
      FrameIsNotEmpty(v);
    }
    if |data| < 2 {
      return Err(TooShort);
    }
    if data[0] != FLAG_LATEST {
      return Err(BadFlag);
    }
    var frame := ReadFrame(data, 1);
    if frame.Err? {
      return frame.PropagateFailure();
    }
    return Ok(frame.value.0);
  }

  lemma FrameIsNotEmpty(v: Range)
    requires v.Valid()
    ensures |Frame(v)| > 0
  {
  }

  /** A framed range, then relative indices up to the end. */
  ghost predicate IsFrameAndWords(data: Bytes, at: nat, v: Range, rel: seq<U16>) {
    var end := |data| - 2 * |rel|;
    end >= 0 && IsFrame(data, at, v, end) && data[end..] == Words(rel)
  }

  /** The common tail of the two latest-chunk decoders. */
  method DeserializeFrameAndWords(data: Bytes, at: nat) returns (r: Result<(Range, seq<U16>)>)
    requires at <= |data| && at <= 17
    ensures r.Ok? ==> IsFrameAndWords(data, at, r.value.0, r.value.1)
    ensures forall v: Range, rel: seq<U16> :: IsFrameAndWords(data, at, v, rel) ==> r == Ok((v, rel))
  {
    hide IsFrame, Words;
    var frame := ReadFrame(data, at);
    if frame.Err? {
      return frame.PropagateFailure();
    }
    var rel := DeserializeUint16Slice(data[frame.value.1..]);
    forall v: Range, l: seq<U16> | IsFrameAndWords(data, at, v, l)
      ensures rel == Ok(l)
    {
      EvenWords(l);
      WordsInjective(rel.value, l);
    }
    if rel.Err? {
      return rel.PropagateFailure();
    }
    return Ok((frame.value.0, rel.value));
  }

  lemma EvenWords(rel: seq<U16>)
    ensures |Words(rel)| % 2 == 0
  {
  }

  /** The latest values of the chain-walk store that its decoder accepts. */
  ghost predicate IsSealingLatest(data: Bytes, prev: U64, cum: U64, v: Range, rel: seq<U16>) {
    && |data| >= 17 && data[0] == FLAG_LATEST && data[1..9] == BE64(prev) && data[9..17] == BE64(cum)
    && IsFrameAndWords(data, 17, v, rel)
  }

  lemma SealingBytesAreSealingLatest(prev: U64, cum: U64, v: Range, rel: seq<U16>)
    requires v.Valid()
    ensures IsSealingLatest(SealingLatestBytes(prev, cum, v, rel), prev, cum, v, rel)
  {
    hide BE64, Frame, Words, IsFrame;
    var data := SealingLatestBytes(prev, cum, v, rel);
    var (p, c, rest) := (BE64(prev), BE64(cum), Frame(v) + Words(rel));
    assert data == [FLAG_LATEST] + p + c + rest;
    assert data[1..9] == p && data[9..17] == c && data[17..] == rest;
    EncodedFrame(data, 17, v, Words(rel));
  }

  method DeserializeSealingLatest(data: Bytes) returns (r: Result<(U64, U64, Range, seq<U16>)>)
    ensures |data| < 17 ==> r == Err(TooShort)
    ensures |data| >= 17 && data[0] != 1 ==> r == Err(BadFlag)
    ensures r.Ok? ==> IsSealingLatest(data, r.value.0, r.value.1, r.value.2, r.value.3)
    ensures forall prev: U64, cum: U64, v: Range, rel: seq<U16> :: IsSealingLatest(data, prev, cum, v, rel) ==>
      r == Ok((prev, cum, v, rel))
    ensures forall prev: U64, cum: U64, v: Range, rel: seq<U16> :: v.Valid() && data == SealingLatestBytes(prev, cum, v, rel) ==>
      r == Ok((prev, cum, v, rel))
  {
    hide BE64, FromBE, SealingLatestBytes, IsFrameAndWords;
    forall prev: U64, cum: U64, v: Range, rel: seq<U16> | v.Valid() && data == SealingLatestBytes(prev, cum, v, rel)
      ensures IsSealingLatest(data, prev, cum, v, rel)
    {
      SealingBytesAreSealingLatest(prev, cum, v, rel);
    }
    if |data| < 17 {
      return Err(TooShort);
    }
    if data[0] != FLAG_LATEST {
      return Err(BadFlag);
    }
    FromBE64Fits(data[1..9]);
    FromBE64Fits(data[9..17]);
    var prevChunkNum, cumulativeCount := FromBE(data[1..9]), FromBE(data[9..17]);
    forall prev: U64, cum: U64, v: Range, rel: seq<U16> | IsSealingLatest(data, prev, cum, v, rel)
      ensures prev == prevChunkNum && cum == cumulativeCount
    {
      BE64RoundTrip(prev);
      BE64RoundTrip(cum);
    }
    var tail := DeserializeFrameAndWords(data, 17);
    if tail.Err? {
      return tail.PropagateFailure();
    }
    return Ok((prevChunkNum, cumulativeCount, tail.value.0, tail.value.1));
  }

  /** Sealed chunks: the decoder accepts exactly what the encoder produces. */
  method DeserializeSealingOlder(data: Bytes) returns (r: Result<(U64, U64, seq<U16>)>)
    ensures |data| < 17 ==> r == Err(TooShort)
    ensures |data| >= 17 && data[0] != 2 ==> r == Err(BadFlag)
    ensures r.Ok? <==> |data| >= 17 && data[0] == FLAG_OLDER && |data| % 2 == 1
    ensures r.Ok? ==> data == SealingOlderBytes(r.value.0, r.value.1, r.value.2)
    ensures forall prev: U64, cum: U64, rel: seq<U16> :: data == SealingOlderBytes(prev, cum, rel) ==> r == Ok((prev, cum, rel))
  {
    hide Join, BE, FromBE, Words;
    if |data| < 17 {
      return Err(TooShort);
    }
    if data[0] != FLAG_OLDER {
      return Err(BadFlag);
    }
    FromBE64Fits(data[1..9]);
    FromBE64Fits(data[9..17]);
    var prevChunkNum, cumulativeCount := FromBE(data[1..9]), FromBE(data[9..17]);
    var rel := DeserializeUint16Slice(data[17..]);
    if rel.Err? {
      return rel.PropagateFailure();
    }
    assert data == [FLAG_OLDER] + data[1..9] + data[9..17] + data[17..];
    forall prev: U64, cum: U64, l: seq<U16> | data == SealingOlderBytes(prev, cum, l)
      ensures prev == prevChunkNum && cum == cumulativeCount && rel.value == l
    {
      SealingOlderInjective(prev, cum, l, prevChunkNum, cumulativeCount, rel.value);
    }
    return Ok((prevChunkNum, cumulativeCount, rel.value));
  }

  lemma SealingOlderInjective(p: U64, c: U64, rel: seq<U16>, p': U64, c': U64, rel': seq<U16>)
    requires SealingOlderBytes(p, c, rel) == SealingOlderBytes(p', c', rel')
    ensures p == p' && c == c' && rel == rel'
  {
    BE64RoundTrip(p);
    BE64RoundTrip(p');
    BE64RoundTrip(c);
    BE64RoundTrip(c');
    hide BE64, Words, FromBE;
    var (a, b) := (SealingOlderBytes(p, c, rel), SealingOlderBytes(p', c', rel'));
    assert a[1..9] == BE64(p) && a[9..17] == BE64(c) && a[17..] == Words(rel);
    assert b[1..9] == BE64(p') && b[9..17] == BE64(c') && b[17..] == Words(rel');
    WordsInjective(rel, rel');
  }

  /** The latest values of the scanning sealing store that its decoder accepts. */
  ghost predicate IsScanLatest(data: Bytes, cum: U64, v: Range, rel: seq<U16>) {
    && |data| >= 9 && data[0] == FLAG_LATEST && data[1..9] == BE64(cum)
    && IsFrameAndWords(data, 9, v, rel)
  }

  lemma ScanBytesAreScanLatest(cum: U64, v: Range, rel: seq<U16>)
    requires v.Valid()
    ensures IsScanLatest(ScanLatestBytes(cum, v, rel), cum, v, rel)
  {
    hide BE64, Frame, Words, IsFrame;
    var data := ScanLatestBytes(cum, v, rel);
    var (c, rest) := (BE64(cum), Frame(v) + Words(rel));
    assert data == [FLAG_LATEST] + c + rest;
    assert data[1..9] == c && data[9..] == rest;
    EncodedFrame(data, 9, v, Words(rel));
  }

  /** The values that the three decoders of framed records with a body accept, in figures: `end`
      is where the frame ends. */
  lemma AcceptedValues(data: Bytes, prev: U64, cum: U64, v: Range, rel: seq<U16>, log: seq<U64>, end: nat)
    requires end <= |data|
    ensures |data| - end == 8 * |log| ==>
      (IsFlatValue(data, v, log) <==> IsFrame(data, 0, v, end) && data[end..] == Quads(log))
    ensures |data| - end == 2 * |rel| && |data| >= 17 ==>
      (IsSealingLatest(data, prev, cum, v, rel) <==>
        && data[0] == 1 && data[1..9] == BE64(prev) && data[9..17] == BE64(cum)
        && IsFrame(data, 17, v, end) && data[end..] == Words(rel))
    ensures |data| - end == 2 * |rel| && |data| >= 9 ==>
      (IsScanLatest(data, cum, v, rel) <==>
        && data[0] == 1 && data[1..9] == BE64(cum)
        && IsFrame(data, 9, v, end) && data[end..] == Words(rel))
  {
    hide IsFrame, Words, Quads, BE64;
  }

  method DeserializeScanLatest(data: Bytes) returns (r: Result<(U64, Range, seq<U16>)>)
    ensures |data| < 9 ==> r == Err(TooShort)
    ensures |data| >= 9 && data[0] != 1 ==> r == Err(BadFlag)
    ensures r.Ok? ==> IsScanLatest(data, r.value.0, r.value.1, r.value.2)
    ensures forall cum: U64, v: Range, rel: seq<U16> :: IsScanLatest(data, cum, v, rel) ==> r == Ok((cum, v, rel))
    ensures forall cum: U64, v: Range, rel: seq<U16> :: v.Valid() && data == ScanLatestBytes(cum, v, rel) ==> r == Ok((cum, v, rel))
  {
    hide BE64, FromBE, ScanLatestBytes, IsFrameAndWords;
    forall cum: U64, v: Range, rel: seq<U16> | v.Valid() && data == ScanLatestBytes(cum, v, rel)
      ensures IsScanLatest(data, cum, v, rel)
    {
      ScanBytesAreScanLatest(cum, v, rel);
    }
    if |data| < 9 {
      return Err(TooShort);
    }
    if data[0] != FLAG_LATEST {
      return Err(BadFlag);
    }
    FromBE64Fits(data[1..9]);
    var cumulativeCount := FromBE(data[1..9]);
    forall cum: U64, v: Range, rel: seq<U16> | IsScanLatest(data, cum, v, rel)
      ensures cum == cumulativeCount
    {
      BE64RoundTrip(cum);
    }
    var tail := DeserializeFrameAndWords(data, 9);
    if tail.Err? {
      return tail.PropagateFailure();
    }
    return Ok((cumulativeCount, tail.value.0, tail.value.1));
  }

  method DeserializeScanOlder(data: Bytes) returns (r: Result<seq<U16>>)
    ensures |data| < 1 ==> r == Err(TooShort)
    ensures |data| >= 1 && data[0] != 2 ==> r == Err(BadFlag)
    ensures r.Ok? <==> |data| >= 1 && data[0] == FLAG_OLDER && |data| % 2 == 1
    ensures r.Ok? ==> data == ScanOlderBytes(r.value)
    ensures forall rel: seq<U16> :: data == ScanOlderBytes(rel) ==> r == Ok(rel)
  {
    hide Join, BE, Words;
    if |data| < 1 {
      return Err(TooShort);
    }
    if data[0] != FLAG_OLDER {
      return Err(BadFlag);
    }
    r := DeserializeUint16Slice(data[1..]);
    if r.Ok? {
      assert data == [FLAG_OLDER] + data[1..];
    }
    forall rel: seq<U16> | data == ScanOlderBytes(rel)
      ensures r == Ok(rel)
    {
      assert data[1..] == Words(rel);
      WordsInjective(r.value, rel);
    }
  }
}
