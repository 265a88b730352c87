/** How each store lays the log of a key out in Pebble. The records under the prefix of a
    key are a function of its log, whatever batches the log arrived in and whatever else
    the store holds. */
module Layout {
  import opened ByteStrings
  import opened Merkle
  import opened Codec
  import opened IndexLog
  import opened Pebble

  type Key = k: Bytes | |k| == 32 witness seq(32, _ => 0)

  datatype Kind =
    | FlatStore | LogStore
    | ChunkStore | ChunkScanStore | PrefixChunkScanStore | InvertedPrefixChunkScanStore
    | SealingChunkStore | SealingChunkScanStore
  {
    predicate NoSeal() {
      ChunkStore? || ChunkScanStore? || PrefixChunkScanStore? || InvertedPrefixChunkScanStore?
    }

    predicate Inverted() {
      InvertedPrefixChunkScanStore?
    }
  }

  /** A store: its kind, its chunk size and the hash functions. The log store keeps one
      record per index, so it is laid out as if its chunks held one index each. */
  datatype Config = Config(kind: Kind, h: Hasher, cs: ChunkSize) {
    predicate Valid() {
      kind.LogStore? ==> cs == 1
    }
  }

  // ---------------------------------------------------------------- keys

  function Tag(kind: Kind): Byte {
    match kind
    case FlatStore => 102  // 'f'
    case LogStore => 108  // 'l'
    case _ => 99  // 'c'
  }

  function Prefix(kind: Kind, key: Key): (p: Bytes)
    ensures |p| == 33
  {
    [Tag(kind)] + key
  }

  /** invertChunkNum for the inverted store, the identity for the others. */
  function Ordinal(kind: Kind, n: U64): U64 {
    if kind.Inverted() then MAX_U64 - n else n
  }

  function RecordKey(kind: Kind, key: Key, n: U64): (k: Bytes)
    ensures |k| == 41 && HasPrefix(k, Prefix(kind, key))
  {
    Prefix(kind, key) + BE64(Ordinal(kind, n))
  }

  /** The eight bytes behind the prefix, as a number. */
  function Number(k: Bytes): U64
    requires |k| == 41
  {
    FromBE64Fits(k[33..]);
    FromBE(k[33..])
  }

  function ChunkNumOf(kind: Kind, k: Bytes): U64
    requires |k| == 41
  {
    Ordinal(kind, Number(k))
  }

  /** The key of a record, byte by byte. */
  lemma RecordKeyBytes(kind: Kind, key: Key, n: U64)
    ensures var k := RecordKey(kind, key, n);
      && |k| == 41 && k[1..33] == key
      && k[0] == (if kind.FlatStore? then 'f' else if kind.LogStore? then 'l' else 'c') as int
      && k[33..] == BE64(if kind.InvertedPrefixChunkScanStore? then 0xFFFF_FFFF_FFFF_FFFF - n else n)
    ensures Prefix(kind, key) == RecordKey(kind, key, n)[..33]
  {
    hide BE64;
  }

  lemma RecordKeyRoundTrip(kind: Kind, key: Key, n: U64)
    ensures ChunkNumOf(kind, RecordKey(kind, key, n)) == n
  {
    BE64RoundTrip(Ordinal(kind, n));
    assert RecordKey(kind, key, n)[33..] == BE64(Ordinal(kind, n));
  }

  lemma RecordKeyOfKey(kind: Kind, key: Key, k: Bytes)
    requires HasPrefix(k, Prefix(kind, key)) && |k| == 41
    ensures RecordKey(kind, key, ChunkNumOf(kind, k)) == k
  {
    FromBE64Fits(k[33..]);
    assert k == k[..33] + k[33..];
  }

  /** Distinct keys have no record key in common. */
  lemma PrefixesAreDisjoint(kind: Kind, a: Key, b: Key, k: Bytes)
    requires HasPrefix(k, Prefix(kind, a)) && HasPrefix(k, Prefix(kind, b))
    ensures a == b
  {
    assert Prefix(kind, a)[1..] == a && Prefix(kind, b)[1..] == b;
  }

  /** Record keys under one prefix sort as chunk numbers, and in reverse when inverted. */
  lemma RecordKeysAreOrdered(kind: Kind, key: Key, a: U64, b: U64)
    ensures Less(RecordKey(kind, key, a), RecordKey(kind, key, b))
       <==> if kind.Inverted() then b < a else a < b
  {
    CommonPrefixCancels(Prefix(kind, key), BE64(Ordinal(kind, a)), BE64(Ordinal(kind, b)));
    Pow256Eight();
    BigEndianIsMonotone(Ordinal(kind, a), Ordinal(kind, b), 8);
  }

  // ---------------------------------------------------------------- values

  /** The relative indices stored in a chunk: below the chunk size, each restoring its entry,
      in the order of the indices, and without repetition when the log has none. */
  lemma StoredRelsAreOrdered(c: Config, log: Log, n: U64)
    requires ChunkOrdered(c.cs, log) && HasChunk(c.cs, log, n)
    ensures var r := Rels(c.cs, Entries(c, log, n));
      && r != []
      && |r| == Below(c.cs, log, n + 1) - Below(c.cs, log, n)
      && (forall i :: 0 <= i < |r| ==> r[i] < c.cs && n * c.cs + r[i] == log[Below(c.cs, log, n) + i])
      && (NonDecreasing(log) ==> forall i, j :: 0 <= i < j < |r| ==> r[i] <= r[j])
      && (Increasing(log) ==> forall i, j :: 0 <= i < j < |r| ==> r[i] < r[j])
  {
    EntriesOfChunk(c.cs, log, n);
    SliceKeepsOrder(log, Below(c.cs, log, n), Below(c.cs, log, n + 1));
    EntriesAt(c, log, n);
    RelsInOrder(c.cs, n, Entries(c, log, n));
    hide *;
  }

  lemma SliceKeepsOrder(log: Log, b: nat, e: nat)
    requires b <= e <= |log|
    ensures NonDecreasing(log) ==> NonDecreasing(log[b..e])
    ensures Increasing(log) ==> Increasing(log[b..e])
  {
  }

  lemma RelsInOrder(cs: ChunkSize, n: U64, entries: Log)
    requires forall i :: 0 <= i < |entries| ==> Chunk(cs, entries[i]) == n
    ensures var r := Rels(cs, entries);
      && (forall i :: 0 <= i < |r| ==> r[i] < cs && n * cs + r[i] == entries[i])
      && (NonDecreasing(entries) ==> forall i, j :: 0 <= i < j < |r| ==> r[i] <= r[j])
      && (Increasing(entries) ==> forall i, j :: 0 <= i < j < |r| ==> r[i] < r[j])
  {
    hide Rels, Chunk;
    RelsAreOrdered(cs, n, entries);
  }

  /** The range stored with a chunk: it covers all entries of lower chunks. */
  function RangeBefore(c: Config, log: Log, n: U64): (r: Range)
    requires |log| < TWO_64
    ensures r.Valid()
  {
    var before := log[..Below(c.cs, log, n)];
    RangeOfIsValid(c.h, before);
    RangeOf(c.h, before)
  }

  function WholeRange(c: Config, log: Log): (r: Range)
    requires |log| < TWO_64
    ensures r.Valid()
  {
    RangeOfIsValid(c.h, log);
    RangeOf(c.h, log)
  }

  function Entries(c: Config, log: Log, n: U64): Log
    requires HasChunk(c.cs, log, n)
  {
    log[Below(c.cs, log, n)..Below(c.cs, log, n + 1)]
  }

  lemma EntriesAt(c: Config, log: Log, n: U64)
    requires HasChunk(c.cs, log, n)
    ensures forall i :: 0 <= i < |Entries(c, log, n)| ==> Entries(c, log, n)[i] == log[Below(c.cs, log, n) + i]
  {
  }

  /** The greatest chunk with entries below `n`; 0 stands for none. */
  function PrevChunk(c: Config, log: Log, n: U64): U64 {
    var b := Below(c.cs, log, n);
    if b == 0 then 0 else Chunk(c.cs, log[b - 1])
  }

  /** No entry lies in a higher chunk. */
  predicate IsLatest(c: Config, log: Log, n: U64) {
    Below(c.cs, log, n + 1) == |log|
  }

  /** The value stored for chunk `n` of the log. */
  function StoredValue(c: Config, log: Log, n: U64): Bytes
    requires |log| < TWO_64 && HasChunk(c.cs, log, n)
  {
    var rel := Rels(c.cs, Entries(c, log, n));
    var cum := Below(c.cs, log, n + 1);
    match c.kind
    case FlatStore => FlatBytes(WholeRange(c, log), log)
    case LogStore => if IsLatest(c, log, n) then LogLatestBytes(WholeRange(c, log)) else [FLAG_OLDER]
    case SealingChunkStore =>
      if IsLatest(c, log, n)
      then SealingLatestBytes(PrevChunk(c, log, n), cum, RangeBefore(c, log, n), rel)
      else SealingOlderBytes(PrevChunk(c, log, n), cum, rel)
    case SealingChunkScanStore =>
      if IsLatest(c, log, n)
      then ScanLatestBytes(cum, RangeBefore(c, log, n), rel)
      else ScanOlderBytes(rel)
    case _ => ChunkBytes(RangeBefore(c, log, n), rel)
  }

  /** `b` entries of the log lie in chunks below `n`, and `e` in chunk `n` or below. */
  ghost predicate CutsAt(cs: ChunkSize, log: Log, n: U64, b: nat, e: nat) {
    b < e <= |log| && forall i :: 0 <= i < |log| ==> (i < b <==> log[i] / cs < n) && (i < e <==> log[i] / cs <= n)
  }

  /** The value of a chunk, in figures. In the no-seal layouts: the range before it, and its
      relative indices. */
  lemma NoSealValue(c: Config, log: Log, n: U64, b: nat, e: nat)
    requires c.kind.NoSeal() && |log| < TWO_64 && ChunkOrdered(c.cs, log) && CutsAt(c.cs, log, n, b, e)
    ensures HasChunk(c.cs, log, n) && RangeOf(c.h, log[..b]).Valid()
    ensures StoredValue(c, log, n) == RangeBytes(RangeOf(c.h, log[..b])) + Words(Rels(c.cs, log[b..e]))
  {
    PartsByCuts(c, log, n, b, e);
    ValueLayouts(0, 0, RangeBefore(c, log, n), Rels(c.cs, log[b..e]), []);
    hide Below, Rels, RangeOf, RangeBytes, Words, ChunkBytes, Entries, RangeBefore, HasChunk, ChunkOrdered, CutsAt;
  }

  /** In the sealing layouts: the flag 1 for the latest chunk and 2 for the others, the
      back-pointer, 0 for the first chunk, the running count, and the range of the latest. */
  lemma SealingValue(c: Config, log: Log, n: U64, b: nat, e: nat)
    requires c.kind.SealingChunkStore? || c.kind.SealingChunkScanStore?
    requires |log| < TWO_64 && ChunkOrdered(c.cs, log) && CutsAt(c.cs, log, n, b, e)
    ensures HasChunk(c.cs, log, n) && RangeOf(c.h, log[..b]).Valid()
    ensures var r := RangeOf(c.h, log[..b]);
      var framed := PutUvarint(8 + 32 * |r.hashes|) + RangeBytes(r);
      var words := Words(Rels(c.cs, log[b..e]));
      var prev: U64 := if b == 0 then 0 else log[b - 1] / c.cs;
      StoredValue(c, log, n) ==
        if c.kind.SealingChunkStore? then
          if e == |log| then [1] + BE64(prev) + BE64(e) + framed + words else [2] + BE64(prev) + BE64(e) + words
        else
          if e == |log| then [1] + BE64(e) + framed + words else [2] + words
  {
    PartsByCuts(c, log, n, b, e);
    ValueLayouts(PrevChunk(c, log, n), e, RangeBefore(c, log, n), Rels(c.cs, log[b..e]), []);
    hide Below, Rels, RangeOf, RangeBytes, Words, BE64, Entries, RangeBefore, HasChunk, ChunkOrdered, CutsAt, PrevChunk,
      PutUvarint, SealingLatestBytes, SealingOlderBytes, ScanLatestBytes, ScanOlderBytes;
  }

  /** In the log layout: the whole range with the greatest index, and the flag 2 alone with
      the others. */
  lemma LogValue(c: Config, log: Log, n: U64, b: nat, e: nat)
    requires c.kind.LogStore? && |log| < TWO_64 && ChunkOrdered(c.cs, log) && CutsAt(c.cs, log, n, b, e)
    ensures HasChunk(c.cs, log, n) && RangeOf(c.h, log).Valid()
    ensures var r := RangeOf(c.h, log);
      StoredValue(c, log, n) ==
        if e == |log| then [1] + PutUvarint(8 + 32 * |r.hashes|) + RangeBytes(r) else [2]
  {
    PartsByCuts(c, log, n, b, e);
    ValueLayouts(0, 0, WholeRange(c, log), [], []);
    hide Below, RangeOf, RangeBytes, WholeRange, HasChunk, ChunkOrdered, CutsAt, PutUvarint, LogLatestBytes;
  }

  lemma PartsByCuts(c: Config, log: Log, n: U64, b: nat, e: nat)
    requires |log| < TWO_64 && ChunkOrdered(c.cs, log) && CutsAt(c.cs, log, n, b, e)
    ensures HasChunk(c.cs, log, n) && RangeOf(c.h, log[..b]).Valid() && RangeOf(c.h, log).Valid()
    ensures Below(c.cs, log, n + 1) == e && WholeRange(c, log) == RangeOf(c.h, log)
    ensures Entries(c, log, n) == log[b..e] && RangeBefore(c, log, n) == RangeOf(c.h, log[..b])
    ensures PrevChunk(c, log, n) == if b == 0 then 0 else log[b - 1] / c.cs
  {
    BelowIsUnique(c.cs, log, n, b);
    BelowIsUnique(c.cs, log, n as nat + 1, e);
    RangeOfIsValid(c.h, log[..b]);
    RangeOfIsValid(c.h, log);
    hide Below, RangeOf, ChunkOrdered;
  }

  /** The store holds the right thing, or rightly nothing, under the byte key `k`. */
  ghost predicate RecordOk(c: Config, m: map<Bytes, Bytes>, log: Log, k: Bytes)
    requires |log| < TWO_64
  {
    (k in m <==> |k| == 41 && HasChunk(c.cs, log, ChunkNumOf(c.kind, k)))
    && (k in m ==> m[k] == StoredValue(c, log, ChunkNumOf(c.kind, k)))
  }

  /** The representation invariant of one key. Records of other keys, and of other
      subsystems, are unconstrained. */
  ghost predicate Rep(c: Config, m: map<Bytes, Bytes>, key: Key, log: Log) {
    && |log| < TWO_64
    && if c.kind.FlatStore? then
         var k := Prefix(c.kind, key);
         if k in m then m[k] == FlatBytes(WholeRange(c, log), log) else log == []
       else
         && ChunkOrdered(c.cs, log)
         && forall k: Bytes :: HasPrefix(k, Prefix(c.kind, key)) ==> RecordOk(c, m, log, k)
  }

  lemma RepOfEmpty(c: Config, key: Key)
    ensures Rep(c, map[], key, [])
  {
  }

  /** Rep depends only on the records under the prefix. */
  lemma RepFrame(c: Config, m: map<Bytes, Bytes>, m': map<Bytes, Bytes>, key: Key, log: Log)
    requires Rep(c, m, key, log)
    requires forall k: Bytes :: HasPrefix(k, Prefix(c.kind, key)) ==>
      (k in m <==> k in m') && (k in m ==> m[k] == m'[k])
    ensures Rep(c, m', key, log)
  {
    hide StoredValue, FlatBytes, HasChunk, WholeRange;
    assert HasPrefix(Prefix(c.kind, key), Prefix(c.kind, key));
    if !c.kind.FlatStore? {
      forall k: Bytes | HasPrefix(k, Prefix(c.kind, key)) ensures RecordOk(c, m', log, k) {
        assert RecordOk(c, m, log, k);
      }
    }
  }

  lemma RepChunk(c: Config, m: map<Bytes, Bytes>, key: Key, log: Log, n: U64)
    requires Rep(c, m, key, log) && !c.kind.FlatStore?
    ensures RecordKey(c.kind, key, n) in m <==> HasChunk(c.cs, log, n)
    ensures HasChunk(c.cs, log, n) ==> m[RecordKey(c.kind, key, n)] == StoredValue(c, log, n)
  {
    hide StoredValue, HasChunk;
    RecordKeyRoundTrip(c.kind, key, n);
    assert RecordOk(c, m, log, RecordKey(c.kind, key, n));
  }

  /** The records of a key, and no others under its prefix: one for each chunk into which an
      index of its log falls. */
  lemma RepRecords(c: Config, m: map<Bytes, Bytes>, key: Key, log: Log, k: Bytes)
    requires Rep(c, m, key, log) && !c.kind.FlatStore? && HasPrefix(k, Prefix(c.kind, key))
    ensures k in m <==>
      exists i :: 0 <= i < |log| && k == RecordKey(c.kind, key, log[i] / c.cs)
  {
    RecordPresent(c, m, key, log, k);
    hide *;
    if k in m {
      var n := ChunkNumOf(c.kind, k);
      RecordKeyOfKey(c.kind, key, k);
      HasChunkIff(c.cs, log, n);
    }
    if i :| 0 <= i < |log| && k == RecordKey(c.kind, key, log[i] / c.cs) {
      var n := log[i] / c.cs;
      RecordKeyRoundTrip(c.kind, key, n);
      HasChunkIff(c.cs, log, n);
    }
  }

  /** The record of a key in the flat layout, in figures: the framed range over the whole log,
      then the log; an absent record stands for the empty log. */
  lemma FlatRecord(c: Config, m: map<Bytes, Bytes>, key: Key, log: Log)
    requires Rep(c, m, key, log) && c.kind.FlatStore?
    ensures RangeOf(c.h, log).Valid()
    ensures var (k, r) := (Prefix(c.kind, key), RangeOf(c.h, log));
      if k in m then m[k] == PutUvarint(8 + 32 * |r.hashes|) + RangeBytes(r) + Quads(log) else log == []
  {
    RangeOfIsValid(c.h, log);
    ValueLayouts(0, 0, WholeRange(c, log), [], log);
    hide RangeBytes, Quads, PutUvarint, RangeOf, FlatBytes, Prefix;
  }

  lemma RecordPresent(c: Config, m: map<Bytes, Bytes>, key: Key, log: Log, k: Bytes)
    requires Rep(c, m, key, log) && !c.kind.FlatStore? && HasPrefix(k, Prefix(c.kind, key))
    ensures k in m <==> |k| == 41 && HasChunk(c.cs, log, ChunkNumOf(c.kind, k))
    ensures ChunkOrdered(c.cs, log)
  {
    assert RecordOk(c, m, log, k);
    hide StoredValue, HasChunk, ChunkNumOf, ChunkOrdered, Prefix;
  }

  // ---------------------------------------------------------------- stability

  /** The same entries below and in a chunk, and the same place in the log: the same value. */
  lemma SameValue(c: Config, log: Log, log': Log, n: U64)
    requires !c.kind.FlatStore? && |log| < TWO_64 && |log'| < TWO_64
    requires HasChunk(c.cs, log, n)
    requires Below(c.cs, log', n) == Below(c.cs, log, n) && Below(c.cs, log', n + 1) == Below(c.cs, log, n + 1)
    requires Below(c.cs, log, n + 1) <= |log'| && log'[..Below(c.cs, log, n + 1)] == log[..Below(c.cs, log, n + 1)]
    requires c.kind.NoSeal() || (!IsLatest(c, log, n) && !IsLatest(c, log', n))
    ensures HasChunk(c.cs, log', n) && StoredValue(c, log', n) == StoredValue(c, log, n)
  {
    SlicesAgree(log, log', Below(c.cs, log, n), Below(c.cs, log, n + 1));
    hide Below, Rels, RangeOf, ChunkBytes, ScanLatestBytes, SealingLatestBytes, SealingOlderBytes, ScanOlderBytes, LogLatestBytes, FlatBytes, Chunk;
    assert Entries(c, log', n) == Entries(c, log, n) && RangeBefore(c, log', n) == RangeBefore(c, log, n);
    assert PrevChunk(c, log', n) == PrevChunk(c, log, n);
    hide Entries, RangeBefore, PrevChunk, HasChunk;
  }

  lemma SlicesAgree(log: Log, log': Log, b: nat, e: nat)
    requires b <= e <= |log| && e <= |log'| && log'[..e] == log[..e]
    ensures log'[..b] == log[..b] && log'[b..e] == log[b..e]
    ensures b > 0 ==> log'[b - 1] == log[b - 1]
  {
    assert log'[..b] == log'[..e][..b] && log[..b] == log[..e][..b];
    assert log'[b..e] == log'[..e][b..] && log[b..e] == log[..e][b..];
    if b > 0 {
      assert log'[b - 1] == log'[..b][b - 1] && log[b - 1] == log[..b][b - 1];
    }
  }

  /** Appending an index touches no chunk but its own, and, in the layouts that flag the
      latest chunk, the chunk that was latest before. */
  lemma AppendLeavesOtherChunks(c: Config, log: Log, x: U64, n: U64)
    requires |log| + 1 < TWO_64 && ChunkOrdered(c.cs, log + [x]) && n != Chunk(c.cs, x)
    requires !c.kind.FlatStore?
    requires c.kind.NoSeal() || (HasChunk(c.cs, log, n) ==> Below(c.cs, log, n + 1) < |log|)
    ensures HasChunk(c.cs, log + [x], n) <==> HasChunk(c.cs, log, n)
    ensures HasChunk(c.cs, log, n) ==> StoredValue(c, log + [x], n) == StoredValue(c, log, n)
  {
    var log' := log + [x];
    BelowAppend(c.cs, log, x, n);
    BelowAppend(c.cs, log, x, n + 1);
    assert forall i :: 0 <= i < |log| ==> log[i] == log'[i];
    hide StoredValue, Below, Chunk;
    if n > Chunk(c.cs, x) {
      NothingBeyond(c.cs, log, x, n);
    } else if HasChunk(c.cs, log, n) {
      SameValue(c, log, log', n);
    }
  }

  /** Once a higher chunk exists, the bytes of a chunk never change again. */
  lemma SealedChunksAreImmutable(c: Config, log: Log, more: Log, n: U64)
    requires !c.kind.FlatStore? && |log + more| < TWO_64 && ChunkOrdered(c.cs, log + more)
    requires HasChunk(c.cs, log, n) && !IsLatest(c, log, n)
    ensures HasChunk(c.cs, log + more, n) && !IsLatest(c, log + more, n)
    ensures StoredValue(c, log + more, n) == StoredValue(c, log, n)
  {
    BelowOfExtension(c.cs, log, more, n);
    BelowOfExtension(c.cs, log, more, n + 1);
    hide StoredValue, Below;
    SameValue(c, log, log + more, n);
  }

  /** In the no-seal layouts the range stored with a chunk never changes after the chunk is
      created, and its relative indices only grow at the end. */
  lemma StoredRangeNeverChanges(c: Config, log: Log, more: Log, n: U64)
    requires c.kind.NoSeal() && |log + more| < TWO_64 && ChunkOrdered(c.cs, log + more)
    requires HasChunk(c.cs, log, n)
    ensures HasChunk(c.cs, log + more, n)
    ensures StoredValue(c, log, n) == ChunkBytes(RangeBefore(c, log, n), Rels(c.cs, Entries(c, log, n)))
    ensures StoredValue(c, log + more, n) ==
            ChunkBytes(RangeBefore(c, log, n), Rels(c.cs, Entries(c, log + more, n)))
    ensures Rels(c.cs, Entries(c, log, n)) <= Rels(c.cs, Entries(c, log + more, n))
  {
    var all := log + more;
    BelowOfExtension(c.cs, log, more, n);
    BelowGrows(c.cs, log, more, n + 1);
    hide RangeOf, ChunkBytes, Below, ChunkOrdered;
    var (b, e, e') := (Below(c.cs, log, n), Below(c.cs, log, n + 1), Below(c.cs, all, n + 1));
    assert all[..b] == log[..b];
    SliceOfExtension(log, more, b, e, e');
    RelsOfPrefix(c.cs, log[b..e], all[b..e']);
  }

  /** The same in the store: between two states of a run the bytes under a sealed chunk's key
      are equal. */
  lemma SealedRecordsAreImmutable(c: Config, m: map<Bytes, Bytes>, m': map<Bytes, Bytes>, key: Key,
                                  log: Log, more: Log, n: U64)
    requires !c.kind.FlatStore? && Rep(c, m, key, log) && Rep(c, m', key, log + more)
    requires HasChunk(c.cs, log, n) && !IsLatest(c, log, n)
    ensures var k := RecordKey(c.kind, key, n);
      k in m && k in m' && m'[k] == m[k]
  {
    hide StoredValue, HasChunk, ChunkOrdered, Below, RecordOk, RecordKey;
    SealedChunksAreImmutable(c, log, more, n);
    RepChunk(c, m, key, log, n);
    RepChunk(c, m', key, log + more, n);
  }

  lemma SliceOfExtension(log: Log, more: Log, b: nat, e: nat, e': nat)
    requires b <= e <= |log| && e <= e' <= |log + more|
    ensures log[b..e] <= (log + more)[b..e']
  {
  }

  lemma RelsOfPrefix(cs: ChunkSize, a: Log, b: Log)
    requires a <= b
    ensures Rels(cs, a) <= Rels(cs, b)
  {
  }
}
