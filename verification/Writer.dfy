/** The steps that every chunked WriteBatch is made of: fold the finished chunk into the
    range, write a record, move on to the next index. */
module Writer {
  import opened ByteStrings
  import opened Merkle
  import opened Codec
  import opened IndexLog
  import opened Pebble
  import opened Layout

  /** The store as it will be once the batch is committed. */
  ghost function Overlay(m: map<Bytes, Bytes>, batch: Batch): map<Bytes, Bytes>
    reads batch
  {
    m + Contents(batch.ops)
  }

  /** batch.Set, stated on the store as it will be after the commit. */
  method SetRecord(batch: Batch, k: Bytes, v: Bytes, ghost m: map<Bytes, Bytes>)
    modifies batch
    ensures Overlay(m, batch) == old(Overlay(m, batch))[k := v]
  {
    ContentsOfSnoc(batch.ops, Record(k, v));
    batch.Set(k, v);
  }

  /** Outside one prefix the store is unchanged. */
  ghost predicate SameOutside(p: Bytes, m: map<Bytes, Bytes>, m': map<Bytes, Bytes>) {
    forall k: Bytes :: !HasPrefix(k, p) ==> (k in m <==> k in m') && (k in m ==> m[k] == m'[k])
  }

  lemma SameOutsideReflexive(p: Bytes, m: map<Bytes, Bytes>)
    ensures SameOutside(p, m, m)
  {
  }

  lemma SameOutsideTransitive(p: Bytes, a: map<Bytes, Bytes>, b: map<Bytes, Bytes>, d: map<Bytes, Bytes>)
    requires SameOutside(p, a, b) && SameOutside(p, b, d)
    ensures SameOutside(p, a, d)
  {
  }

  /** Every record of the key is right, except perhaps the one of chunk `n`. */
  ghost predicate OthersOk(c: Config, m: map<Bytes, Bytes>, key: Key, log: Log, n: U64)
    requires |log| < TWO_64
  {
    forall k: Bytes :: HasPrefix(k, Prefix(c.kind, key)) && k != RecordKey(c.kind, key, n) ==>
      RecordOk(c, m, log, k)
  }

  /** Chunk `n` is the chunk of the last entry. */
  predicate IsCurrent(c: Config, log: Log, n: U64) {
    log == [] || Chunk(c.cs, log[|log| - 1]) == n
  }

  lemma CurrentChunkFacts(c: Config, log: Log, n: U64)
    requires ChunkOrdered(c.cs, log) && log != [] && IsCurrent(c, log, n)
    ensures HasChunk(c.cs, log, n) && IsLatest(c, log, n)
    ensures forall k: U64 :: k != n && HasChunk(c.cs, log, k) ==> Below(c.cs, log, k + 1) < |log|
  {
    ChunkOfEntryPresent(c.cs, log, |log| - 1);
    forall k: U64 | k != n && HasChunk(c.cs, log, k)
      ensures Below(c.cs, log, k + 1) < |log|
    {
      if k < n { BelowMonotone(c.cs, log, k + 1, n); }
    }
  }

  lemma SetStaysInPrefix(c: Config, m: map<Bytes, Bytes>, key: Key, n: U64, v: Bytes)
    ensures SameOutside(Prefix(c.kind, key), m, m[RecordKey(c.kind, key, n) := v])
  {
  }

  lemma ChunkOrderedPrefix(cs: ChunkSize, a: Log, b: Log)
    requires ChunkOrdered(cs, a + b)
    ensures ChunkOrdered(cs, a)
  {
    assert forall i :: 0 <= i < |a| ==> a[i] == (a + b)[i];
  }

  lemma OthersAfterAppend(c: Config, m: map<Bytes, Bytes>, key: Key, log: Log, n: U64, x: U64, k: Bytes)
    requires |log| + 1 < TWO_64 && ChunkOrdered(c.cs, log + [x]) && !c.kind.FlatStore?
    requires OthersOk(c, m, key, log, n) && IsCurrent(c, log, n)
    requires HasPrefix(k, Prefix(c.kind, key)) && k != RecordKey(c.kind, key, n)
    requires k != RecordKey(c.kind, key, Chunk(c.cs, x))
    ensures RecordOk(c, m, log + [x], k)
  {
    hide StoredValue, Below;
    assert RecordOk(c, m, log, k);
    if |k| == 41 {
      var q := ChunkNumOf(c.kind, k);
      RecordKeyOfKey(c.kind, key, k);
      ChunkOrderedPrefix(c.cs, log, [x]);
      if log != [] {
        CurrentChunkFacts(c, log, n);
      } else {
        NoChunkInEmptyLog(c.cs, q);
      }
      AppendLeavesOtherChunks(c, log, x, q);
    }
  }

  lemma NoChunkInEmptyLog(cs: ChunkSize, n: U64)
    ensures !HasChunk(cs, [], n)
  {
  }

  /** The next index falls into the current chunk. */
  lemma StepWithinChunk(c: Config, m: map<Bytes, Bytes>, key: Key, log: Log, n: U64, x: U64)
    requires |log| + 1 < TWO_64 && ChunkOrdered(c.cs, log + [x]) && !c.kind.FlatStore?
    requires OthersOk(c, m, key, log, n) && IsCurrent(c, log, n) && Chunk(c.cs, x) == n
    ensures OthersOk(c, m, key, log + [x], n)
  {
    forall k: Bytes | HasPrefix(k, Prefix(c.kind, key)) && k != RecordKey(c.kind, key, n)
      ensures RecordOk(c, m, log + [x], k)
    {
      OthersAfterAppend(c, m, key, log, n, x, k);
    }
  }

  /** The next index opens a new chunk, after the current one got its final record. */
  lemma StepToNewChunk(c: Config, m: map<Bytes, Bytes>, key: Key, log: Log, n: U64, x: U64)
    requires |log| + 1 < TWO_64 && ChunkOrdered(c.cs, log + [x]) && !c.kind.FlatStore?
    requires OthersOk(c, m, key, log, n) && IsCurrent(c, log, n) && Chunk(c.cs, x) != n
    requires RecordOk(c, m, log + [x], RecordKey(c.kind, key, n))
    ensures OthersOk(c, m, key, log + [x], Chunk(c.cs, x))
  {
    forall k: Bytes | HasPrefix(k, Prefix(c.kind, key)) && k != RecordKey(c.kind, key, Chunk(c.cs, x))
      ensures RecordOk(c, m, log + [x], k)
    {
      if k != RecordKey(c.kind, key, n) {
        OthersAfterAppend(c, m, key, log, n, x, k);
      }
    }
  }

  /** Writing the record of chunk `n` leaves the others alone. */
  lemma SetKeepsOthers(c: Config, m: map<Bytes, Bytes>, key: Key, log: Log, n: U64, v: Bytes)
    requires |log| < TWO_64 && OthersOk(c, m, key, log, n)
    ensures OthersOk(c, m[RecordKey(c.kind, key, n) := v], key, log, n)
  {
    hide StoredValue, HasChunk;
    var m' := m[RecordKey(c.kind, key, n) := v];
    forall k: Bytes | HasPrefix(k, Prefix(c.kind, key)) && k != RecordKey(c.kind, key, n)
      ensures RecordOk(c, m', log, k)
    {
      assert RecordOk(c, m, log, k);
    }
  }

  /** The record just written is the right one. */
  lemma SetIsOk(c: Config, m: map<Bytes, Bytes>, key: Key, log: Log, n: U64, v: Bytes)
    requires |log| < TWO_64 && HasChunk(c.cs, log, n) && v == StoredValue(c, log, n)
    ensures RecordOk(c, m[RecordKey(c.kind, key, n) := v], log, RecordKey(c.kind, key, n))
  {
    RecordKeyRoundTrip(c.kind, key, n);
  }

  lemma AllOk(c: Config, m: map<Bytes, Bytes>, key: Key, log: Log, n: U64)
    requires |log| < TWO_64 && !c.kind.FlatStore? && ChunkOrdered(c.cs, log)
    requires OthersOk(c, m, key, log, n) && RecordOk(c, m, log, RecordKey(c.kind, key, n))
    ensures Rep(c, m, key, log)
  {
    hide StoredValue, HasChunk;
    forall k: Bytes | HasPrefix(k, Prefix(c.kind, key))
      ensures RecordOk(c, m, log, k)
    {
    }
  }

  // ---------------------------------------------------------------- the current chunk in memory

  /** The entries behind the range all lie in chunk `n`, and `rel` restores them. */
  ghost predicate RunOf(c: Config, log: Log, n: U64, r: Range, rel: seq<U16>) {
    && r.size <= |log| < TWO_64
    && r == RangeOf(c.h, log[..r.size]) && rel == Rels(c.cs, log[r.size..])
    && forall i :: r.size <= i < |log| ==> Chunk(c.cs, log[i]) == n
  }

  /** What the write loops hold in memory, in whatever order the indices come: the last run of
      entries in one chunk, and the range over all entries before it. */
  ghost predicate InRun(c: Config, log: Log, n: U64, r: Range, rel: seq<U16>) {
    && RunOf(c, log, n, r, rel)
    && (log != [] ==> rel != [])
    && (r.size > 0 ==> Chunk(c.cs, log[r.size - 1]) != n)
  }

  lemma InRunOfEmpty(c: Config, n: U64)
    ensures InRun(c, [], n, Range(0, []), [])
  {
    assert Leaves([]) == [];
  }

  lemma InRunWithinChunk(c: Config, log: Log, n: U64, r: Range, rel: seq<U16>, x: U64)
    requires InRun(c, log, n, r, rel) && |log| + 1 < TWO_64 && Chunk(c.cs, x) == n
    ensures InRun(c, log + [x], n, r, rel + [Rel(c.cs, x)])
  {
    hide RangeOf, Chunk, Rel;
    var (all, b) := (log + [x], r.size);
    assert all[..b] == log[..b] && all[b..] == log[b..] + [x];
  }

  lemma InRunNewChunk(c: Config, log: Log, n: U64, r: Range, rel: seq<U16>, x: U64)
    requires InRun(c, log, n, r, rel) && |log| + 1 < TWO_64 && log != [] && Chunk(c.cs, x) != n
    ensures InRun(c, log + [x], Chunk(c.cs, x), RangeOf(c.h, log), [Rel(c.cs, x)])
  {
    var all := log + [x];
    assert RangeOf(c.h, log).size == |log|;
    assert all[|log| - 1] == log[|log| - 1];
    hide RangeOf, Chunk, Rel;
    assert all[..|log|] == log && all[|log|..] == [x];
  }

  /** While the log is ordered, that is what belongs to its latest chunk. */
  lemma InRunIsInMemory(c: Config, log: Log, n: U64, r: Range, rel: seq<U16>)
    requires InRun(c, log, n, r, rel) && ChunkOrdered(c.cs, log)
    ensures |log| < TWO_64 && IsCurrent(c, log, n) && InMemory(c, log, n, r, rel)
  {
    hide RangeOf, Chunk;
    var b := r.size;
    forall i | 0 <= i < b ensures Chunk(c.cs, log[i]) < n {
      assert Chunk(c.cs, log[i]) <= Chunk(c.cs, log[b - 1]) <= Chunk(c.cs, log[b]);
    }
    BelowIsUnique(c.cs, log, n, b);
  }

  lemma InMemoryIsInRun(c: Config, log: Log, n: U64, r: Range, rel: seq<U16>)
    requires |log| < TWO_64 && ChunkOrdered(c.cs, log) && log != []
    requires IsCurrent(c, log, n) && InMemory(c, log, n, r, rel)
    ensures InRun(c, log, n, r, rel)
  {
    InMemoryEntries(c, log, n);
    BelowSplits(c.cs, log, n);
  }

  /** `range` and `rel` are what belongs to chunk `n` of the log. */
  ghost predicate InMemory(c: Config, log: Log, n: U64, r: Range, rel: seq<U16>)
    requires |log| < TWO_64
  {
    r == RangeBefore(c, log, n) && rel == Rels(c.cs, log[Below(c.cs, log, n)..])
  }

  lemma PrevWithinChunk(c: Config, log: Log, n: U64, x: U64)
    requires Chunk(c.cs, x) == n
    ensures PrevChunk(c, log + [x], n) == PrevChunk(c, log, n)
  {
    BelowAppend(c.cs, log, x, n);
  }

  lemma PrevOfNewChunk(c: Config, log: Log, n: U64, x: U64)
    requires ChunkOrdered(c.cs, log + [x]) && log != [] && IsCurrent(c, log, n) && Chunk(c.cs, x) != n
    ensures n < Chunk(c.cs, x) && PrevChunk(c, log + [x], Chunk(c.cs, x)) == n
  {
    var all := log + [x];
    BelowAppend(c.cs, log, x, Chunk(c.cs, x));
    assert Chunk(c.cs, all[|log| - 1]) <= Chunk(c.cs, all[|log|]);
  }

  lemma InMemoryEntries(c: Config, log: Log, n: U64)
    requires ChunkOrdered(c.cs, log) && log != [] && IsCurrent(c, log, n)
    ensures HasChunk(c.cs, log, n) && Below(c.cs, log, n + 1) == |log|
    ensures Entries(c, log, n) == log[Below(c.cs, log, n)..]
    ensures forall i :: Below(c.cs, log, n) <= i < |log| ==> Chunk(c.cs, log[i]) == n
  {
    CurrentChunkFacts(c, log, n);
    EntriesOfChunk(c.cs, log, n);
  }

  /** Appends the leaf hashes of a chunk to the range that precedes it. */
  method AppendChunk(c: Config, range: CompactRange, n: U64, rel: seq<U16>, ghost log: Log)
    requires range.h == c.h && RunOf(c, log, n, range.Value(), rel)
    modifies range
    ensures range.Value() == RangeOf(c.h, log)
  {
    hide RangeOf, Chunk, Rel;
    ghost var b := range.Value().size;
    var i := 0;
    while i < |rel|
      invariant 0 <= i <= |rel| == |log| - b
      invariant range.Value() == RangeOf(c.h, log[..b + i])
    {
      assert rel[i] == Rel(c.cs, log[b + i]);
      AbsRestores(c.cs, log[b + i]);
      range.AppendIndex(Abs(c.cs, n, rel[i]), log[..b + i]);
      assert log[..b + i] + [log[b + i]] == log[..b + i + 1];
      i := i + 1;
    }
    assert log[..b + i] == log;
  }

  /** The check at the head of WriteBatch. */
  method IsSorted(indices: Log) returns (sorted: bool)
    ensures sorted <==> NonDecreasing(indices)
  {
    var i := 1;
    while i < |indices|
      invariant 1 <= i
      invariant forall a, b :: 0 <= a < b < i && b < |indices| ==> indices[a] <= indices[b]
    {
      if indices[i] < indices[i - 1] {
        return false;
      }
      i := i + 1;
    }
    return true;
  }
}
