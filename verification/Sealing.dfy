/** The sealing layouts: the latest chunk carries the range and the running count; when the
    log leaves a chunk, the chunk is rewritten once, as older. SealingChunkStore links older
    chunks by back-pointers, SealingChunkScanStore does not; their write loops agree. */
module Sealing {
  import opened ByteStrings
  import opened Merkle
  import opened Codec
  import opened IndexLog
  import opened Pebble
  import opened Layout
  import opened Cursor
  import opened Writer
  import opened Latest
  import opened Scan
  import NoSeal
  import opened Backward

  predicate IsSealing(kind: Kind) {
    kind.SealingChunkStore? || kind.SealingChunkScanStore?
  }

  // ---------------------------------------------------------------- values

  /** The bytes of the latest chunk; the scanning store has no back-pointer. */
  function LatestBytes(kind: Kind, prev: U64, cum: U64, r: Range, rel: seq<U16>): Bytes
    requires r.Valid()
  {
    if kind.SealingChunkStore? then SealingLatestBytes(prev, cum, r, rel) else ScanLatestBytes(cum, r, rel)
  }

  /** The bytes of a chunk that the log has left. */
  function OlderBytes(kind: Kind, prev: U64, cum: U64, rel: seq<U16>): Bytes {
    if kind.SealingChunkStore? then SealingOlderBytes(prev, cum, rel) else ScanOlderBytes(rel)
  }

  method SerializeLatest(c: Config, prev: U64, cum: U64, range: CompactRange, rel: seq<U16>) returns (b: Bytes)
    requires IsSealing(c.kind) && range.Value().Valid()
    ensures b == LatestBytes(c.kind, prev, cum, range.Value(), rel)
  {
    hide SealingLatestBytes, ScanLatestBytes;
    if c.kind.SealingChunkStore? {
      b := SerializeSealingLatest(prev, cum, range, rel);
    } else {
      b := SerializeScanLatest(cum, range, rel);
    }
  }

  /** When the next index `x` lies beyond chunk `n`, the chunk is complete. */
  lemma ChunkOnceLeft(c: Config, log: Log, n: U64, x: U64)
    requires log != [] && ChunkOrdered(c.cs, log + [x]) && IsCurrent(c, log, n) && Chunk(c.cs, x) != n
    ensures HasChunk(c.cs, log + [x], n) && !IsLatest(c, log + [x], n)
    ensures Below(c.cs, log + [x], n + 1) == |log|
    ensures Entries(c, log + [x], n) == log[Below(c.cs, log, n)..]
    ensures PrevChunk(c, log + [x], n) == PrevChunk(c, log, n)
  {
    var all := log + [x];
    ChunkOrderedPrefix(c.cs, log, [x]);
    InMemoryEntries(c, log, n);
    assert Chunk(c.cs, all[|log| - 1]) <= Chunk(c.cs, all[|log|]);
    BelowAppend(c.cs, log, x, n);
    BelowAppend(c.cs, log, x, n + 1);
    hide Below, ChunkOrdered;
    var b := Below(c.cs, log, n);
    assert all[b..|log|] == log[b..];
  }

  /** What it becomes: an older record, without its range. */
  lemma ValueOnceSealed(c: Config, log: Log, n: U64, x: U64)
    requires IsSealing(c.kind) && |log| + 1 < TWO_64 && log != [] && ChunkOrdered(c.cs, log + [x])
    requires IsCurrent(c, log, n) && Chunk(c.cs, x) != n
    ensures HasChunk(c.cs, log + [x], n)
    ensures StoredValue(c, log + [x], n) ==
            OlderBytes(c.kind, PrevChunk(c, log, n), |log|, Rels(c.cs, log[Below(c.cs, log, n)..]))
  {
    hide *;
    ChunkOnceLeft(c, log, n, x);
    SealedValue(c, log + [x], n);
  }

  lemma SealedValue(c: Config, log: Log, n: U64)
    requires IsSealing(c.kind) && |log| < TWO_64 && HasChunk(c.cs, log, n) && !IsLatest(c, log, n)
    ensures StoredValue(c, log, n) ==
            OlderBytes(c.kind, PrevChunk(c, log, n), Below(c.cs, log, n + 1), Rels(c.cs, Entries(c, log, n)))
  {
    hide Below, RangeOf, SealingOlderBytes, ScanOlderBytes, Rels, PrevChunk, Entries, HasChunk, RangeBefore, IsLatest,
      SealingLatestBytes, ScanLatestBytes;
  }


  method SerializeOlder(c: Config, prev: U64, cum: U64, rel: seq<U16>) returns (b: Bytes)
    requires IsSealing(c.kind)
    ensures b == OlderBytes(c.kind, prev, cum, rel)
  {
    hide SealingOlderBytes, ScanOlderBytes;
    if c.kind.SealingChunkStore? {
      b := SerializeSealingOlder(prev, cum, rel);
    } else {
      b := SerializeScanOlder(rel);
    }
  }

  datatype LatestChunk = LatestChunk(chunkNum: U64, prev: U64, cum: U64, range: Range, rel: seq<U16>)

  /** The latest chunk of a log; the scanning store keeps no back-pointer. */
  function LatestOf(c: Config, log: Log): LatestChunk
    requires |log| < TWO_64 && log != [] && HasChunk(c.cs, log, Chunk(c.cs, log[|log| - 1]))
  {
    var n := Chunk(c.cs, log[|log| - 1]);
    LatestChunk(n, if c.kind.SealingChunkStore? then PrevChunk(c, log, n) else 0, |log|,
                RangeBefore(c, log, n), Rels(c.cs, Entries(c, log, n)))
  }

  /** Reads the latest record back; an older record would be refused by its flag. */
  method ReadLatest(c: Config, rec: Record, ghost key: Key, ghost log: Log) returns (r: Result<LatestChunk>)
    requires IsSealing(c.kind) && |log| < TWO_64 && log != []
    requires IsLatestRecord(c, key, log, Some(rec))
    ensures r == Ok(LatestOf(c, log))
  {
    hide RecordKey, RangeBefore, Rels, Entries, PrevChunk, Below, SealingLatestBytes, ScanLatestBytes;
    ghost var n := Chunk(c.cs, log[|log| - 1]);
    if |rec.key| != 41 {
      return Err(BadKeyLength);
    }
    RecordKeyRoundTrip(c.kind, key, n);
    if c.kind.SealingChunkStore? {
      var v := DeserializeSealingLatest(rec.value);
      if v.Err? {
        return v.PropagateFailure();
      }
      return Ok(LatestChunk(ChunkNumOf(c.kind, rec.key), v.value.0, v.value.1, v.value.2, v.value.3));
    } else {
      var v := DeserializeScanLatest(rec.value);
      if v.Err? {
        return v.PropagateFailure();
      }
      return Ok(LatestChunk(ChunkNumOf(c.kind, rec.key), 0, v.value.0, v.value.1, v.value.2));
    }
  }

  // ---------------------------------------------------------------- WriteBatch, one key

  /** The state of the write loop. The current chunk `n` is in memory only; as long as the
      indices come in chunk order, all other records are right for `log`. */
  ghost predicate Open(c: Config, m: map<Bytes, Bytes>, key: Key, log: Log, n: U64, r: Range, rel: seq<U16>,
                       prev: U64, cum: U64)
  {
    && IsSealing(c.kind) && InRun(c, log, n, r, rel) && cum == |log|
    && (ChunkOrdered(c.cs, log) ==>
         && OthersOk(c, m, key, log, n)
         && (c.kind.SealingChunkStore? ==> prev == PrevChunk(c, log, n)))
  }

  lemma OpenAtStart(c: Config, m: map<Bytes, Bytes>, key: Key, log: Log, prev: Option<Record>, first: U64)
    requires IsSealing(c.kind) && Rep(c, m, key, log) && IsLatestRecord(c, key, log, prev)
    ensures prev.None? ==> log == [] && Open(c, m, key, log, Chunk(c.cs, first), Range(0, []), [], 0, 0)
    ensures prev.Some? ==>
      && log != [] && HasChunk(c.cs, log, Chunk(c.cs, log[|log| - 1]))
      && var l := LatestOf(c, log);
      && l.cum == |log| && Open(c, m, key, log, l.chunkNum, l.range, l.rel, l.prev, l.cum)
  {
    hide StoredValue, RangeOf, Below, RecordOk, RecordKey, HasChunk, Rels, Open;
    if prev.None? {
      OpenEmpty(c, m, key, Chunk(c.cs, first));
    } else {
      OpenLatest(c, m, key, log);
    }
  }

  lemma OpenEmpty(c: Config, m: map<Bytes, Bytes>, key: Key, n: U64)
    requires IsSealing(c.kind) && Rep(c, m, key, [])
    ensures Open(c, m, key, [], n, Range(0, []), [], 0, 0)
  {
    hide StoredValue, RangeOf, Below, RecordOk, RecordKey, InRun;
    InRunOfEmpty(c, n);
    BelowOfEmpty(c, n);
  }

  lemma OpenLatest(c: Config, m: map<Bytes, Bytes>, key: Key, log: Log)
    requires IsSealing(c.kind) && Rep(c, m, key, log) && log != []
    ensures HasChunk(c.cs, log, Chunk(c.cs, log[|log| - 1]))
    ensures var l := LatestOf(c, log);
      Open(c, m, key, log, l.chunkNum, l.range, l.rel, l.prev, l.cum)
  {
    hide StoredValue, RangeOf, Below, RecordOk, RecordKey, HasChunk, Rels, InRun;
    var n := Chunk(c.cs, log[|log| - 1]);
    InMemoryEntries(c, log, n);
    InMemoryIsInRun(c, log, n, RangeBefore(c, log, n), Rels(c.cs, Entries(c, log, n)));
  }

  lemma BelowOfEmpty(c: Config, n: nat)
    ensures Below(c.cs, [], n) == 0
  {
  }

  lemma OpenWithinChunk(c: Config, m: map<Bytes, Bytes>, key: Key, log: Log, n: U64, r: Range, rel: seq<U16>,
                        prev: U64, cum: U64, x: U64)
    requires Open(c, m, key, log, n, r, rel, prev, cum) && Chunk(c.cs, x) == n && |log| + 1 < TWO_64
    ensures Open(c, m, key, log + [x], n, r, rel + [Rel(c.cs, x)], prev, cum + 1)
  {
    hide RecordOk, OthersOk, InRun, RecordKey, PrevChunk, ChunkOrdered;
    InRunWithinChunk(c, log, n, r, rel, x);
    if ChunkOrdered(c.cs, log + [x]) {
      ChunkOrderedPrefix(c.cs, log, [x]);
      InRunIsInMemory(c, log, n, r, rel);
      PrevWithinChunk(c, log, n, x);
      StepWithinChunk(c, m, key, log, n, x);
    }
  }

  /** The log leaves chunk `n`, whose older record was just written. */
  lemma OpenNewChunk(c: Config, m: map<Bytes, Bytes>, key: Key, log: Log, n: U64, r: Range, rel: seq<U16>,
                     prev: U64, cum: U64, x: U64)
    requires log != [] && Open(c, m, key, log, n, r, rel, prev, cum) && Chunk(c.cs, x) != n && |log| + 1 < TWO_64
    ensures var m' := m[RecordKey(c.kind, key, n) := OlderBytes(c.kind, prev, cum, rel)];
      Open(c, m', key, log + [x], Chunk(c.cs, x), RangeOf(c.h, log), [Rel(c.cs, x)], n, cum + 1)
  {
    hide RecordOk, OthersOk, RecordKey, PrevChunk, StoredValue, Below, RangeOf, Rels, OlderBytes, ChunkOrdered, InRun;
    InRunNewChunk(c, log, n, r, rel, x);
    if ChunkOrdered(c.cs, log + [x]) {
      var v := OlderBytes(c.kind, prev, cum, rel);
      ChunkOrderedPrefix(c.cs, log, [x]);
      InRunIsInMemory(c, log, n, r, rel);
      OlderBytesMatch(c, log, n, prev);
      ValueOnceSealed(c, log, n, x);
      SetKeepsOthers(c, m, key, log, n, v);
      SetIsOk(c, m, key, log + [x], n, v);
      PrevOfNewChunk(c, log, n, x);
      StepToNewChunk(c, m[RecordKey(c.kind, key, n) := v], key, log, n, x);
    }
  }

  /** The scanning store writes no back-pointer. */
  lemma OlderBytesMatch(c: Config, log: Log, n: U64, prev: U64)
    requires IsSealing(c.kind) && (c.kind.SealingChunkStore? ==> prev == PrevChunk(c, log, n))
    ensures forall cum: U64, rel: seq<U16> :: OlderBytes(c.kind, prev, cum, rel) == OlderBytes(c.kind, PrevChunk(c, log, n), cum, rel)
  {
    hide SealingOlderBytes, ScanOlderBytes, PrevChunk;
  }

  /** The latest chunk is written last, and then every record is right. */
  lemma OpenToRep(c: Config, m: map<Bytes, Bytes>, key: Key, log: Log, n: U64, r: Range, rel: seq<U16>,
                  prev: U64, cum: U64)
    requires log != [] && Open(c, m, key, log, n, r, rel, prev, cum) && r.Valid()
    ensures ChunkOrdered(c.cs, log) ==>
      Rep(c, m[RecordKey(c.kind, key, n) := LatestBytes(c.kind, prev, cum, r, rel)], key, log)
  {
    hide RecordOk, OthersOk, InRun, RecordKey, StoredValue, HasChunk, ChunkOrdered, LatestBytes;
    if ChunkOrdered(c.cs, log) {
      var v := LatestBytes(c.kind, prev, cum, r, rel);
      InRunIsInMemory(c, log, n, r, rel);
      LatestValue(c, log, n, r, rel, prev);
      SetKeepsOthers(c, m, key, log, n, v);
      SetIsOk(c, m, key, log, n, v);
      AllOk(c, m[RecordKey(c.kind, key, n) := v], key, log, n);
    }
  }

  lemma LatestValue(c: Config, log: Log, n: U64, r: Range, rel: seq<U16>, prev: U64)
    requires IsSealing(c.kind) && |log| < TWO_64 && ChunkOrdered(c.cs, log) && log != []
    requires IsCurrent(c, log, n) && InMemory(c, log, n, r, rel)
    requires c.kind.SealingChunkStore? ==> prev == PrevChunk(c, log, n)
    ensures HasChunk(c.cs, log, n) && r.Valid()
    ensures StoredValue(c, log, n) == LatestBytes(c.kind, prev, |log|, r, rel)
  {
    InMemoryEntries(c, log, n);
    hide Below, RangeOf, SealingLatestBytes, ScanLatestBytes, PrevChunk, ChunkOrdered, Rels, HasChunk, IsCurrent;
  }

  lemma OpenRun(c: Config, m: map<Bytes, Bytes>, key: Key, log: Log, n: U64, r: Range, rel: seq<U16>,
                prev: U64, cum: U64)
    requires Open(c, m, key, log, n, r, rel, prev, cum)
    ensures RunOf(c, log, n, r, rel) && r.Valid()
  {
    NoSeal.RunIsValid(c, log, n, r, rel);
  }

  /** One key of WriteBatch: a chunk that the indices leave is rewritten once, as older. The
      code does not check that the chunk number only rises; when it does, the records
      afterwards are those of the extended log. No other prefix is touched. */
  method WriteKey(c: Config, key: Key, newIndices: Log, prev: Option<Record>, batch: Batch,
                  ghost m: map<Bytes, Bytes>, ghost log: Log)
    returns (r: Result<()>)
    requires IsSealing(c.kind) && newIndices != [] && |log + newIndices| < TWO_64
    requires Rep(c, Overlay(m, batch), key, log) && IsLatestRecord(c, key, log, prev)
    modifies batch
    ensures r.Ok?
    ensures ChunkOrdered(c.cs, log + newIndices) ==> Rep(c, Overlay(m, batch), key, log + newIndices)
    ensures SameOutside(Prefix(c.kind, key), old(Overlay(m, batch)), Overlay(m, batch))
  {
    hide Rep, IsLatestRecord, StoredValue, Open, RunOf, InRun, Below, HasChunk, ChunkOrdered, SameOutside,
      RangeOf, RangeBefore, RecordKey, Contents, PrevChunk, Rels, Entries, LatestBytes, OlderBytes, Overlay, LatestOf, Chunk, Rel;
    ghost var before := Overlay(m, batch);
    var curr: U64, range: CompactRange, rel: seq<U16>, prevChunk: U64, cum: nat;
    OpenAtStart(c, before, key, log, prev, newIndices[0]);
    SameOutsideReflexive(Prefix(c.kind, key), before);
    if prev.Some? {
      var l := ReadLatest(c, prev.value, key, log);
      if l.Err? {
        return l.PropagateFailure();
      }
      curr, rel, prevChunk, cum := l.value.chunkNum, l.value.rel, l.value.prev, l.value.cum;
      range := new CompactRange(c.h, l.value.range);
    } else {
      curr, rel, prevChunk, cum := Chunk(c.cs, newIndices[0]), [], 0, 0;
      range := new CompactRange(c.h, Range(0, []));
    }
    var i := 0;
    ghost var done := log;
    assert newIndices[..0] == [] && log + [] == log;
    while i < |newIndices|
      invariant 0 <= i <= |newIndices| && done == log + newIndices[..i]
      invariant fresh(range) && range.h == c.h
      invariant done == [] ==> i == 0 && curr == Chunk(c.cs, newIndices[0])
      invariant cum == |done|
      invariant Open(c, Overlay(m, batch), key, done, curr, range.Value(), rel, prevChunk, cum)
      invariant SameOutside(Prefix(c.kind, key), before, Overlay(m, batch))
    {
      var idx := newIndices[i];
      NoSeal.PrefixOfUpdates(log, newIndices, i);
      var chunkNum := Chunk(c.cs, idx);
      if chunkNum != curr {
        ghost var mid := Overlay(m, batch);
        OpenRun(c, mid, key, done, curr, range.Value(), rel, prevChunk, cum);
        var older := SerializeOlder(c, prevChunk, cum, rel);
        OpenNewChunk(c, mid, key, done, curr, range.Value(), rel, prevChunk, cum, idx);
        SetStaysInPrefix(c, mid, key, curr, older);
        AppendChunk(c, range, curr, rel, done);
        SetRecord(batch, RecordKey(c.kind, key, curr), older, m);
        SameOutsideTransitive(Prefix(c.kind, key), before, mid, Overlay(m, batch));
        prevChunk := curr;
        curr, rel := chunkNum, [];
        assert rel + [Rel(c.cs, idx)] == [Rel(c.cs, idx)];
      } else {
        OpenWithinChunk(c, Overlay(m, batch), key, done, curr, range.Value(), rel, prevChunk, cum, idx);
      }
      rel := rel + [Rel(c.cs, idx)];
      cum := cum + 1;
      done := done + [idx];
      i := i + 1;
    }
    assert newIndices[..i] == newIndices;
    ghost var mid := Overlay(m, batch);
    OpenRun(c, mid, key, done, curr, range.Value(), rel, prevChunk, cum);
    var latest := SerializeLatest(c, prevChunk, cum, range, rel);
    OpenToRep(c, mid, key, done, curr, range.Value(), rel, prevChunk, cum);
    SetStaysInPrefix(c, mid, key, curr, latest);
    SetRecord(batch, RecordKey(c.kind, key, curr), latest, m);
    SameOutsideTransitive(Prefix(c.kind, key), before, mid, Overlay(m, batch));
    return Ok(());
  }

  // ---------------------------------------------------------------- GetSubRoot

  method GetSubRoot(c: Config, db: DB, key: Key, ghost log: Log) returns (r: Result<Hash>)
    requires IsSealing(c.kind) && db.Valid() && Rep(c, db.State(), key, log)
    ensures r == Ok(LogRoot(c.h, log))
  {
    hide StoredValue, RecordKey, RangeBefore, HasChunk, Below, RecordOk, RangeOf, TreeHash, IsLatestRecord;
    var iter := db.NewIter(None);
    var latest := SeekLatest(c, key, iter, log);
    LatestIffEmpty(c, key, log, latest);
    if latest.None? {
      NoSeal.EmptyRoot(c.h);
      return Ok(c.h.empty);
    }
    var l := ReadLatest(c, latest.value, key, log);
    if l.Err? {
      return l.PropagateFailure();
    }
    var range := new CompactRange(c.h, l.value.range);
    NoSeal.LatestRun(c, log);
    AppendChunk(c, range, l.value.chunkNum, l.value.rel, log);
    var root := range.SubRoot(log);
    if root.None? {
      return Err(RootFailed);
    }
    return Ok(root.value);
  }

  lemma LatestIffEmpty(c: Config, key: Key, log: Log, r: Option<Record>)
    requires |log| < TWO_64 && IsLatestRecord(c, key, log, r)
    ensures r.None? <==> log == []
    ensures log != [] ==> HasChunk(c.cs, log, Chunk(c.cs, log[|log| - 1]))
    ensures log != [] ==> IsLatest(c, log, Chunk(c.cs, log[|log| - 1]))
  {
  }

  /** The flag byte marks the latest chunk, and no other. */
  lemma FlagMarksLatest(c: Config, log: Log, n: U64)
    requires IsSealing(c.kind) || c.kind.LogStore?
    requires |log| < TWO_64 && HasChunk(c.cs, log, n)
    ensures |StoredValue(c, log, n)| > 0
    ensures StoredValue(c, log, n)[0] == if IsLatest(c, log, n) then 1 else 2
  {
    hide Below, RangeBefore, WholeRange, Rels, Frame;
  }

  /** Of the chunks of a key exactly one is latest, the greatest. */
  lemma OneChunkIsLatest(c: Config, log: Log, n: U64)
    requires ChunkOrdered(c.cs, log) && log != [] && HasChunk(c.cs, log, n)
    ensures IsLatest(c, log, n) <==> n == Chunk(c.cs, log[|log| - 1])
    ensures n <= Chunk(c.cs, log[|log| - 1])
  {
    CurrentChunkFacts(c, log, Chunk(c.cs, log[|log| - 1]));
    EntriesOfChunk(c.cs, log, n);
    var b := Below(c.cs, log, n);
    assert Chunk(c.cs, log[b]) <= Chunk(c.cs, log[|log| - 1]);
  }

  // ---------------------------------------------------------------- SealingChunkStore.Lookup

  /** What the chain walk carries between two reads. */
  datatype Walk = Walk(chunks: seq<ChunkData>, prev: U64, cum: U64, len: nat)

  ghost predicate Walking(c: Config, log: Log, start: U64, w: Walk, x: U64) {
    && c.kind.SealingChunkStore?
    && Collected(c, log, start, w.chunks, x)
    && w.prev == PrevChunk(c, log, x)
    && w.cum == Below(c.cs, log, x + 1)
    && w.len == Below(c.cs, log, x + 1) - Below(c.cs, log, x)
  }

  /** The back-pointer of a chunk that is not the first names the greatest existing smaller
      chunk, which is flagged older. */
  lemma BackPointer(c: Config, log: Log, x: U64)
    requires ChunkOrdered(c.cs, log) && HasChunk(c.cs, log, x) && 0 < Below(c.cs, log, x)
    ensures var q := PrevChunk(c, log, x);
      && q < x && HasChunk(c.cs, log, q) && !IsLatest(c, log, q)
      && Below(c.cs, log, q + 1) == Below(c.cs, log, x)
      && forall y: U64 :: y < x && HasChunk(c.cs, log, y) ==> y <= q
  {
    var b := Below(c.cs, log, x);
    var q := Chunk(c.cs, log[b - 1]);
    BelowSplits(c.cs, log, x);
    ChunkOfEntryPresent(c.cs, log, b - 1);
    BelowMonotone(c.cs, log, q + 1, x);
    forall y: U64 | y < x && HasChunk(c.cs, log, y) ensures y <= q {
      BelowMonotone(c.cs, log, y + 1, x);
      EntriesOfChunk(c.cs, log, y);
      assert Chunk(c.cs, log[Below(c.cs, log, y)]) <= Chunk(c.cs, log[b - 1]);
    }
  }

  lemma WalkingLatest(c: Config, log: Log, start: U64)
    requires c.kind.SealingChunkStore? && |log| < TWO_64 && ChunkOrdered(c.cs, log) && log != []
    ensures HasChunk(c.cs, log, Chunk(c.cs, log[|log| - 1]))
    ensures var l := LatestOf(c, log);
      && Walking(c, log, start, Walk([ChunkData(l.chunkNum, l.rel, l.cum)], l.prev, l.cum, |l.rel|), l.chunkNum)
      && |l.rel| <= l.cum
  {
    var n := Chunk(c.cs, log[|log| - 1]);
    CurrentChunkFacts(c, log, n);
    hide Below, Rels, RangeBefore, Collected;
    CollectedLatest(c, log, start, n);
  }

  /** The start of the walk: the latest chunk, from a snapshot cursor. */
  method BeginWalk(c: Config, db: DB, key: Key, start: U64, ghost log: Log)
    returns (r: Result<Option<Walk>>, ghost x: U64)
    requires c.kind.SealingChunkStore? && db.Valid() && Rep(c, db.State(), key, log)
    ensures r.Ok? && (r.value.None? <==> log == [])
    ensures r.value.Some? ==> Walking(c, log, start, r.value.value, x) && r.value.value.len <= r.value.value.cum
    ensures r.value.Some? ==> |r.value.value.chunks| == 1
  {
    hide StoredValue, RecordKey, RangeBefore, HasChunk, Below, RecordOk, Walking, Rels, PrevChunk;
    x := 0;
    var iter := db.NewIter(None);
    var latest := SeekLatest(c, key, iter, log);
    if latest.None? {
      return Ok(None), 0;
    }
    var l := ReadLatest(c, latest.value, key, log);
    if l.Err? {
      return l.PropagateFailure(), x;
    }
    WalkingLatest(c, log, start);
    var v := l.value;
    return Ok(Some(Walk([ChunkData(v.chunkNum, v.rel, v.cum)], v.prev, v.cum, |v.rel|))), v.chunkNum;
  }

  lemma WalkingOlder(c: Config, log: Log, start: U64, w: Walk, x: U64)
    requires Walking(c, log, start, w, x) && start < w.cum - w.len
    ensures c.kind.SealingChunkStore? && |log| < TWO_64 && ChunkOrdered(c.cs, log) && HasChunk(c.cs, log, x)
    ensures var q := PrevChunk(c, log, x);
      && w.prev == q < x && 0 < Below(c.cs, log, x) && HasChunk(c.cs, log, q)
      && var (rel, cum) := (Rels(c.cs, Entries(c, log, q)), Below(c.cs, log, q + 1));
      && cum < TWO_64 && |rel| <= cum && cum - |rel| < w.cum - w.len
      && Walking(c, log, start, Walk(w.chunks + [ChunkData(q, rel, cum)], PrevChunk(c, log, q), cum, |rel|), q)
  {
    BackPointer(c, log, x);
    hide Below, Rels, Collected;
    CollectedOlder(c, log, start, w.chunks, x, PrevChunk(c, log, x));
  }

  /** What a Get at the back-pointer reads in any later state of the store. */
  lemma LiveChunk(c: Config, m: map<Bytes, Bytes>, key: Key, log: Log, more: Log, x: U64)
    requires c.kind.SealingChunkStore? && ChunkOrdered(c.cs, log)
    requires HasChunk(c.cs, log, x) && 0 < Below(c.cs, log, x)
    requires Rep(c, m, key, log + more)
    ensures |log| < TWO_64
    ensures var q := PrevChunk(c, log, x);
      && HasChunk(c.cs, log, q) && RecordKey(c.kind, key, q) in m
      && Below(c.cs, log, q + 1) < TWO_64
      && m[RecordKey(c.kind, key, q)] ==
         SealingOlderBytes(PrevChunk(c, log, q), Below(c.cs, log, q + 1), Rels(c.cs, Entries(c, log, q)))
  {
    BackPointer(c, log, x);
    hide Below, Rels, SealingOlderBytes, PrevChunk;
    var q := PrevChunk(c, log, x);
    SealedChunksAreImmutable(c, log, more, q);
    RepChunk(c, m, key, log + more, q);
  }

  /** One step of the walk: a Get on the live store. Batches committed since the snapshot
      may have extended the log by `more`, but sealed chunks are never rewritten. A step is
      taken only from a chunk with entries before it, so the back-pointer it follows is never
      the placeholder of the first chunk; the entries before the chunk it comes to are fewer,
      and are counted without underflow. */
  method StepWalk(c: Config, db: DB, key: Key, start: U64, w: Walk, ghost log: Log, ghost more: Log, ghost x: U64)
    returns (r: Result<Walk>, ghost q: U64, ghost seen: map<Bytes, Bytes>)
    requires Walking(c, log, start, w, x) && start < w.cum - w.len
    requires db.Valid() && Rep(c, db.State(), key, log + more)
    ensures 0 < Below(c.cs, log, x) && q == w.prev == PrevChunk(c, log, x) < x && HasChunk(c.cs, log, q)
    ensures r.Ok? && Walking(c, log, start, r.value, q)
    ensures 0 <= r.value.cum - r.value.len < w.cum - w.len
    ensures |r.value.chunks| == |w.chunks| + 1
    ensures seen == db.State()
  {
    hide Rep, RecordKey, Below, RecordOk, Rels, PrevChunk, SealingOlderBytes, Collected, ChunkOrdered, Entries, Contents,
      HasChunk, Sorted, Walking;
    q, seen := PrevChunk(c, log, x), db.State();
    WalkingOlder(c, log, start, w, x);
    LiveChunk(c, db.State(), key, log, more, x);
    var val := db.Get(RecordKey(c.kind, key, w.prev));
    if val.None? {
      return Err(ChunkMissing), q, seen;
    }
    var v := DeserializeSealingOlder(val.value);
    if v.Err? {
      return v.PropagateFailure(), q, seen;
    }
    var (prev, cum, rel) := v.value;
    return Ok(Walk(w.chunks + [ChunkData(w.prev, rel, cum)], prev, cum, |rel|)), q, seen;
  }

  /** How many reads a walk takes: one chunk each, but the latest, from the first chunk of the
      shortest suffix on. */
  lemma ReadsOfWalk(c: Config, log: Log, start: U64, w: Walk, x: U64)
    requires Walking(c, log, start, w, x) && w.cum - w.len <= start
    ensures ShortestSuffix(c, log, start, x)
    ensures |w.chunks| == |ChunkNumbers(c.cs, log, Below(c.cs, log, x))|
  {
    hide Below, AreChunksFrom, ShortestSuffix, ChunkOrdered;
    CollectedIsShortest(c, log, start, w.chunks, x);
    CountChunks(c, log, w.chunks, x);
  }

  /** The end of the walk: the chunks read are exactly those of the shortest suffix. */
  method EndWalk(c: Config, start: U64, w: Walk, ghost log: Log, ghost x: U64) returns (r: Result<Log>)
    requires Walking(c, log, start, w, x) && w.cum - w.len <= start
    ensures r == Ok(Suffix(log, start))
    ensures |log| < TWO_64 && AreChunksFrom(c, log, w.chunks, x) && ShortestSuffix(c, log, start, x)
  {
    hide Below, Collected, AreChunksFrom, ShortestSuffix;
    CollectedIsShortest(c, log, start, w.chunks, x);
    r := Finish(c, w.chunks, start, log, x);
  }

  /** SealingChunkStore.Lookup with no writer beside it. */
  method LookupChain(c: Config, db: DB, key: Key, start: U64, ghost log: Log) returns (r: Result<Log>)
    requires c.kind.SealingChunkStore? && db.Valid() && Rep(c, db.State(), key, log)
    ensures r == Ok(Suffix(log, start))
  {
    hide Walking, Rep;
    var begin, x := BeginWalk(c, db, key, start, log);
    if begin.Err? {
      return begin.PropagateFailure();
    }
    if begin.value.None? {
      return Ok([]);
    }
    var w := begin.value.value;
    assert log + [] == log;
    while w.cum - w.len > start
      invariant Walking(c, log, start, w, x)
      decreases w.cum - w.len
    {
      var step, q, seen := StepWalk(c, db, key, start, w, log, [], x);
      if step.Err? {
        return step.PropagateFailure();
      }
      w, x := step.value, q;
    }
    r := EndWalk(c, start, w, log, x);
  }

  // ---------------------------------------------------------------- SealingChunkScanStore.Lookup

  /** The visited chunks, and the running count once the latest chunk was among them. */
  ghost predicate Scanned(c: Config, log: Log, from: nat, n: nat, acc: Log, cum: U64, found: bool) {
    && Below(c.cs, log, from) <= Below(c.cs, log, n)
    && acc == log[Below(c.cs, log, from)..Below(c.cs, log, n)]
    && (found <==> acc != [] && Below(c.cs, log, n) == |log|)
    && (found ==> cum == |log|)
  }

  /** The body of the scan loop, at the record of chunk `x`: latest and older values are told
      apart by their flag. */
  method ReadFlagged(c: Config, val: Bytes, ghost log: Log, ghost x: U64)
    returns (r: Result<(seq<U16>, Option<U64>)>)
    requires c.kind.SealingChunkScanStore? && |log| < TWO_64 && HasChunk(c.cs, log, x)
    requires val == StoredValue(c, log, x)
    ensures r == Ok((Rels(c.cs, Entries(c, log, x)), if IsLatest(c, log, x) then Some(|log|) else None))
  {
    FlagMarksLatest(c, log, x);
    hide Below, Rels, RangeBefore, Entries, ScanLatestBytes, ScanOlderBytes;
    if |val| == 0 {
      return Err(TooShort);
    }
    if val[0] == FLAG_LATEST {
      var v := DeserializeScanLatest(val);
      if v.Err? {
        return v.PropagateFailure();
      }
      return Ok((v.value.2, Some(v.value.0)));
    } else if val[0] == FLAG_OLDER {
      var v := DeserializeScanOlder(val);
      if v.Err? {
        return v.PropagateFailure();
      }
      return Ok((v.value, None));
    } else {
      return Err(BadFlag);
    }
  }

  lemma ScannedNext(c: Config, log: Log, from: nat, n: nat, acc: Log, cum: U64, found: bool, x: U64)
    requires |log| < TWO_64 && HasChunk(c.cs, log, x) && Below(c.cs, log, x) == Below(c.cs, log, n)
    requires Scanned(c, log, from, n, acc, cum, found)
    ensures !found
    ensures Scanned(c, log, from, x as nat + 1, acc + Entries(c, log, x),
                    if IsLatest(c, log, x) then |log| else cum, IsLatest(c, log, x))
  {
    hide Below;
    SlicesJoin(log, Below(c.cs, log, from), Below(c.cs, log, n), Below(c.cs, log, x + 1));
  }

  lemma NothingScanned(c: Config, log: Log, n: nat)
    ensures Scanned(c, log, n, n, [], 0, false)
  {
  }

  /** The skipped entries are recovered from the running count of the latest chunk. */
  method SliceScanned(c: Config, acc: Log, cum: U64, found: bool, start: U64, ghost log: Log, ghost n: nat)
    returns (r: Result<Log>)
    requires |log| < TWO_64 && Below(c.cs, log, n) == |log|
    requires Scanned(c, log, Chunk(c.cs, start), n, acc, cum, found)
    ensures r == ScanAnswer(c.cs, log, start)
  {
    hide Below;
    if |acc| == 0 {
      return Ok([]);
    }
    if !found {
      return Err(LatestMissing);
    }
    if cum < |acc| {
      return Err(BadCount);
    }
    var skipped := cum - |acc|;
    if start < skipped {
      return Err(InvariantViolated);
    }
    var offset := start - skipped;
    if offset >= |acc| {
      return Ok([]);
    }
    assert acc[offset..] == log[start..];
    return Ok(acc[offset..]);
  }

  method LookupScan(c: Config, db: DB, key: Key, start: U64, ghost log: Log) returns (r: Result<Log>)
    requires c.kind.SealingChunkScanStore? && db.Valid() && Rep(c, db.State(), key, log)
    ensures r == ScanAnswer(c.cs, log, start)
  {
    hide Rep, Snapshot, ChunkCut, StoredValue, HasChunk, Below, RecordKey, Contents, Scanned, Standing, Rank, Less, ScanAnswer,
      ChunkOrdered, Entries, Rels, AbsAll;
    var prefix := Prefix(c.kind, key);
    var startChunkNum := Chunk(c.cs, start);
    var startKey := RecordKey(c.kind, key, startChunkNum);
    var upperBound := PrefixUpperBound(prefix);
    UpperBoundExists(c.kind, key);
    var iter := db.NewIter(upperBound);
    NewSnapshot(c, db, key, log);
    BoundedSnapshot(c, db.records, key, log, upperBound.value);
    ghost var (rs, n: nat) := (iter.snapshot, startChunkNum);
    SeekStands(c, rs, key, log, startChunkNum);
    var acc: Log, cum: U64, found := [], 0, false;
    NothingScanned(c, log, n);
    var valid := iter.SeekGE(startKey);
    while valid
      invariant iter.mode == None && valid == iter.Valid()
      invariant Standing(c, rs, key, log, iter.pos, n)
      invariant Scanned(c, log, startChunkNum, n, acc, cum, found)
      decreases |rs| - iter.pos
    {
      Step(c, rs, key, log, iter.pos, n);
      BoundedStep(c, rs, key, log, iter.pos, n);
      if |iter.Key()| != 41 {
        return Err(BadKeyLength);
      }
      var chunkNum := ChunkNumOf(c.kind, iter.Key());
      var v := ReadFlagged(c, iter.Value(), log, chunkNum);
      if v.Err? {
        return v.PropagateFailure();
      }
      ScannedNext(c, log, startChunkNum, n, acc, cum, found, chunkNum);
      EntriesRestored(c, log, chunkNum);
      if v.value.1.Some? {
        cum, found := v.value.1.value, true;
      }
      acc := AppendAbsolute(c, acc, chunkNum, v.value.0);
      n := chunkNum as nat + 1;
      valid := iter.Next();
    }
    Step(c, rs, key, log, iter.pos, n);
    r := SliceScanned(c, acc, cum, found, start, log, n);
  }
}
