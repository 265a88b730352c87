/** The no-seal layout: WriteBatch for one key and GetSubRoot, shared by ChunkStore,
    ChunkScanStore, PrefixChunkScanStore and InvertedPrefixChunkScanStore. */
module NoSeal {
  import opened ByteStrings
  import opened Merkle
  import opened Codec
  import opened IndexLog
  import opened Pebble
  import opened Layout
  import opened Writer
  import opened Latest

  /** Reads one stored chunk back: its number, the range before it, its relative indices. */
  method ReadChunk(c: Config, rec: Record, ghost key: Key, ghost log: Log, ghost n: U64)
    returns (r: Result<(U64, Range, seq<U16>)>)
    requires c.kind.NoSeal() && |log| < TWO_64 && HasChunk(c.cs, log, n)
    requires rec == Record(RecordKey(c.kind, key, n), StoredValue(c, log, n))
    ensures r == Ok((n, RangeBefore(c, log, n), Rels(c.cs, Entries(c, log, n))))
  {
    hide WellFormedChunk, ChunkBytes, RecordKey, RangeBefore;
    if |rec.key| != 41 {
      return Err(BadKeyLength);
    }
    RecordKeyRoundTrip(c.kind, key, n);
    var value := DeserializeChunkValue(rec.value);
    ChunkBytesWellFormed(RangeBefore(c, log, n), Rels(c.cs, Entries(c, log, n)));
    if value.Err? {
      return value.PropagateFailure();
    }
    ChunkBytesInjective(value.value.0, value.value.1, RangeBefore(c, log, n), Rels(c.cs, Entries(c, log, n)));
    return Ok((ChunkNumOf(c.kind, rec.key), value.value.0, value.value.1));
  }

  /** The state of the write loop. As long as the indices come in chunk order, the records of
      the key are right for `log`, except that the current chunk `n` is in memory and, when
      `modified`, not yet in the batch. */
  ghost predicate Pending(c: Config, m: map<Bytes, Bytes>, key: Key, log: Log, n: U64, r: Range, rel: seq<U16>,
                          modified: bool)
  {
    && c.kind.NoSeal() && InRun(c, log, n, r, rel)
    && (ChunkOrdered(c.cs, log) ==>
         && OthersOk(c, m, key, log, n)
         && (modified || RecordOk(c, m, log, RecordKey(c.kind, key, n))))
  }

  lemma StartPending(c: Config, m: map<Bytes, Bytes>, key: Key, log: Log, prev: Option<Record>, first: U64)
    requires c.kind.NoSeal() && Rep(c, m, key, log) && IsLatestRecord(c, key, log, prev)
    ensures |log| < TWO_64
    ensures prev.None? ==> log == [] && Pending(c, m, key, log, Chunk(c.cs, first), Range(0, []), [], true)
    ensures prev.Some? ==>
      && log != []
      && var n := Chunk(c.cs, log[|log| - 1]);
      && HasChunk(c.cs, log, n)
      && prev.value == Record(RecordKey(c.kind, key, n), StoredValue(c, log, n))
      && Pending(c, m, key, log, n, RangeBefore(c, log, n), Rels(c.cs, Entries(c, log, n)), false)
  {
    hide StoredValue, RangeOf, Below, RecordOk, RecordKey, HasChunk, InRun;
    if prev.None? {
      InRunOfEmpty(c, Chunk(c.cs, first));
    } else {
      var n := Chunk(c.cs, log[|log| - 1]);
      InMemoryEntries(c, log, n);
      LatestIsInPrefix(c.kind, key, n);
      InMemoryIsInRun(c, log, n, RangeBefore(c, log, n), Rels(c.cs, Entries(c, log, n)));
    }
  }

  lemma LatestIsInPrefix(kind: Kind, key: Key, n: U64)
    ensures HasPrefix(RecordKey(kind, key, n), Prefix(kind, key))
  {
  }

  lemma PrefixOfUpdates(log: Log, more: Log, i: nat)
    requires i < |more|
    ensures log + more[..i + 1] == log + more[..i] + [more[i]]
    ensures |log + more[..i]| + 1 <= |log + more|
  {
  }

  lemma PendingRun(c: Config, m: map<Bytes, Bytes>, key: Key, log: Log, n: U64, r: Range, rel: seq<U16>)
    requires Pending(c, m, key, log, n, r, rel, false)
    ensures RunOf(c, log, n, r, rel)
  {
  }

  /** The next index stays in the current chunk. */
  lemma PendingWithinChunk(c: Config, m: map<Bytes, Bytes>, key: Key, log: Log, n: U64, r: Range, rel: seq<U16>,
                           modified: bool, x: U64)
    requires Pending(c, m, key, log, n, r, rel, modified) && Chunk(c.cs, x) == n && |log| + 1 < TWO_64
    ensures Pending(c, m, key, log + [x], n, r, rel + [Rel(c.cs, x)], true)
  {
    hide RecordOk, OthersOk, InRun, RecordKey, ChunkOrdered;
    InRunWithinChunk(c, log, n, r, rel, x);
    if ChunkOrdered(c.cs, log + [x]) {
      ChunkOrderedPrefix(c.cs, log, [x]);
      InRunIsInMemory(c, log, n, r, rel);
      StepWithinChunk(c, m, key, log, n, x);
    }
  }

  /** The next index opens another chunk; the current one is complete and in the batch. */
  lemma PendingNewChunk(c: Config, m: map<Bytes, Bytes>, key: Key, log: Log, n: U64, r: Range, rel: seq<U16>, x: U64)
    requires Pending(c, m, key, log, n, r, rel, false) && log != [] && Chunk(c.cs, x) != n && |log| + 1 < TWO_64
    ensures Pending(c, m, key, log + [x], Chunk(c.cs, x), RangeOf(c.h, log), [Rel(c.cs, x)], true)
  {
    hide RecordOk, OthersOk, InRun, RecordKey, ChunkOrdered;
    InRunNewChunk(c, log, n, r, rel, x);
    if ChunkOrdered(c.cs, log + [x]) {
      ChunkOrderedPrefix(c.cs, log, [x]);
      InRunIsInMemory(c, log, n, r, rel);
      FinishedChunk(c, m, key, log, n, x);
      StepToNewChunk(c, m, key, log, n, x);
    }
  }

  /** A chunk that is right for the log so far stays right when the log leaves it. */
  lemma FinishedChunk(c: Config, m: map<Bytes, Bytes>, key: Key, log: Log, n: U64, x: U64)
    requires c.kind.NoSeal() && |log| + 1 < TWO_64 && ChunkOrdered(c.cs, log + [x]) && Chunk(c.cs, x) != n
    requires RecordOk(c, m, log, RecordKey(c.kind, key, n))
    ensures RecordOk(c, m, log + [x], RecordKey(c.kind, key, n))
  {
    hide StoredValue, Below;
    RecordKeyRoundTrip(c.kind, key, n);
    AppendLeavesOtherChunks(c, log, x, n);
  }

  lemma PendingIsRep(c: Config, m: map<Bytes, Bytes>, key: Key, log: Log, n: U64, r: Range, rel: seq<U16>)
    requires Pending(c, m, key, log, n, r, rel, false)
    ensures ChunkOrdered(c.cs, log) ==> Rep(c, m, key, log)
  {
    hide RecordOk, OthersOk, RecordKey, ChunkOrdered;
    if ChunkOrdered(c.cs, log) {
      AllOk(c, m, key, log, n);
    }
  }

  /** The record of the current chunk is right, while the log is ordered. */
  lemma PendingWritten(c: Config, m: map<Bytes, Bytes>, key: Key, log: Log, n: U64, r: Range, rel: seq<U16>, v: Bytes)
    requires log != [] && Pending(c, m, key, log, n, r, rel, true)
    requires r.Valid() && v == ChunkBytes(r, rel)
    ensures Pending(c, m[RecordKey(c.kind, key, n) := v], key, log, n, r, rel, false)
  {
    hide ChunkBytes, RecordKey, HasChunk, OthersOk, RecordOk, InRun, ChunkOrdered, RangeOf;
    if ChunkOrdered(c.cs, log) {
      InRunIsInMemory(c, log, n, r, rel);
      InMemoryEntries(c, log, n);
      hide Below;
      SetKeepsOthers(c, m, key, log, n, v);
      SetIsOk(c, m, key, log, n, v);
    }
  }

  /** Writes the current chunk into the batch. */
  method WriteCurrent(c: Config, key: Key, n: U64, range: CompactRange, rel: seq<U16>, batch: Batch,
                      ghost m: map<Bytes, Bytes>, ghost log: Log)
    requires log != [] && Pending(c, Overlay(m, batch), key, log, n, range.Value(), rel, true)
    modifies batch
    ensures Pending(c, Overlay(m, batch), key, log, n, range.Value(), rel, false)
    ensures SameOutside(Prefix(c.kind, key), old(Overlay(m, batch)), Overlay(m, batch))
  {
    hide ChunkBytes, RecordKey, SameOutside, Contents, Prefix;
    RunIsValid(c, log, n, range.Value(), rel);
    hide InRun, RunOf, Pending, Overlay;
    ghost var before := Overlay(m, batch);
    var value := SerializeChunkValue(range, rel);
    var dbKey := RecordKey(c.kind, key, n);
    PendingWritten(c, before, key, log, n, range.Value(), rel, value);
    SetStaysInPrefix(c, before, key, n, value);
    SetRecord(batch, dbKey, value, m);
  }

  lemma RunIsValid(c: Config, log: Log, n: U64, r: Range, rel: seq<U16>)
    requires RunOf(c, log, n, r, rel)
    ensures r.Valid()
  {
    RangeOfIsValid(c.h, log[..r.size]);
  }

  /** One key of WriteBatch: continue the latest chunk, and start a new one whenever the
      chunk number changes. The code does not check that it only rises; when it does, the
      records afterwards are those of the extended log. No other prefix is touched. */
  method WriteKey(c: Config, key: Key, newIndices: Log, prev: Option<Record>, batch: Batch,
                  ghost m: map<Bytes, Bytes>, ghost log: Log)
    returns (r: Result<()>)
    requires c.kind.NoSeal() && newIndices != [] && |log + newIndices| < TWO_64
    requires Rep(c, Overlay(m, batch), key, log) && IsLatestRecord(c, key, log, prev)
    modifies batch
    ensures r.Ok?
    ensures ChunkOrdered(c.cs, log + newIndices) ==> Rep(c, Overlay(m, batch), key, log + newIndices)
    ensures SameOutside(Prefix(c.kind, key), old(Overlay(m, batch)), Overlay(m, batch))
  {
    hide *;
    ghost var before := Overlay(m, batch);
    var curr: U64, range: CompactRange, rel: seq<U16>, modified: bool;
    StartPending(c, before, key, log, prev, newIndices[0]);
    SameOutsideReflexive(Prefix(c.kind, key), before);
    assert newIndices[..0] == [] && log + [] == log;
    if prev.Some? {
      var chunk := ReadChunk(c, prev.value, key, log, Chunk(c.cs, log[|log| - 1]));
      if chunk.Err? {
        return chunk.PropagateFailure();
      }
      curr, rel, modified := chunk.value.0, chunk.value.2, false;
      range := new CompactRange(c.h, chunk.value.1);
    } else {
      curr, rel, modified := Chunk(c.cs, newIndices[0]), [], true;
      range := new CompactRange(c.h, Range(0, []));
    }
    var i := 0;
    ghost var done := log;
    while i < |newIndices|
      invariant 0 <= i <= |newIndices| && done == log + newIndices[..i]
      invariant fresh(range) && range.h == c.h
      invariant done == [] ==> i == 0 && curr == Chunk(c.cs, newIndices[0])
      invariant Pending(c, Overlay(m, batch), key, done, curr, range.Value(), rel, modified)
      invariant i > 0 ==> modified
      invariant SameOutside(Prefix(c.kind, key), before, Overlay(m, batch))
    {
      var idx := newIndices[i];
      PrefixOfUpdates(log, newIndices, i);
      var chunkNum := Chunk(c.cs, idx);
      if chunkNum != curr {
        if modified {
          ghost var mid := Overlay(m, batch);
          WriteCurrent(c, key, curr, range, rel, batch, m, done);
          SameOutsideTransitive(Prefix(c.kind, key), before, mid, Overlay(m, batch));
        }
        PendingRun(c, Overlay(m, batch), key, done, curr, range.Value(), rel);
        PendingNewChunk(c, Overlay(m, batch), key, done, curr, range.Value(), rel, idx);
        AppendChunk(c, range, curr, rel, done);
        curr, rel := chunkNum, [];
        assert rel + [Rel(c.cs, idx)] == [Rel(c.cs, idx)];
      } else {
        PendingWithinChunk(c, Overlay(m, batch), key, done, curr, range.Value(), rel, modified, idx);
      }
      rel := rel + [Rel(c.cs, idx)];
      modified := true;
      done := done + [idx];
      i := i + 1;
    }
    assert newIndices[..i] == newIndices;
    if modified {
      ghost var mid := Overlay(m, batch);
      WriteCurrent(c, key, curr, range, rel, batch, m, done);
      SameOutsideTransitive(Prefix(c.kind, key), before, mid, Overlay(m, batch));
    }
    PendingIsRep(c, Overlay(m, batch), key, done, curr, range.Value(), rel);
    return Ok(());
  }

  /** GetSubRoot: the root from the latest chunk alone. */
  method GetSubRoot(c: Config, db: DB, key: Key, ghost log: Log) returns (r: Result<Hash>)
    requires c.kind.NoSeal() && db.Valid() && Rep(c, db.State(), key, log)
    ensures r == Ok(LogRoot(c.h, log))
  {
    hide ChunkBytes, StoredValue, RecordKey, RangeBefore, HasChunk, Below, RecordOk, RangeOf, TreeHash;
    var iter := db.NewIter(None);
    var latest := FindLatest(c, key, iter, log);
    if latest.None? {
      EmptyRoot(c.h);
      return Ok(c.h.empty);
    }
    ghost var n := Chunk(c.cs, log[|log| - 1]);
    var chunk := ReadChunk(c, latest.value, key, log, n);
    if chunk.Err? {
      return chunk.PropagateFailure();
    }
    var range := new CompactRange(c.h, chunk.value.1);
    LatestRun(c, log);
    AppendChunk(c, range, chunk.value.0, chunk.value.2, log);
    var root := range.SubRoot(log);
    if root.None? {
      return Err(RootFailed);
    }
    return Ok(root.value);
  }

  /** The latest chunk of a log, as it is stored. */
  lemma LatestRun(c: Config, log: Log)
    requires |log| < TWO_64 && ChunkOrdered(c.cs, log) && log != []
    ensures var n := Chunk(c.cs, log[|log| - 1]);
      && HasChunk(c.cs, log, n)
      && RunOf(c, log, n, RangeBefore(c, log, n), Rels(c.cs, Entries(c, log, n)))
  {
    hide RangeOf, Below;
    var n := Chunk(c.cs, log[|log| - 1]);
    InMemoryEntries(c, log, n);
    InMemoryIsInRun(c, log, n, RangeBefore(c, log, n), Rels(c.cs, Entries(c, log, n)));
  }

  lemma EmptyRoot(h: Hasher)
    ensures LogRoot(h, []) == h.empty
  {
  }
}
