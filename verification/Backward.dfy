/** The backward walks: ChunkStore.Lookup, and what it shares with SealingChunkStore.Lookup.
    Chunks are collected from the latest down, until the entries before the last collected
    chunk are no more than `start`. */
module Backward {
  import opened ByteStrings
  import opened Merkle
  import opened Codec
  import opened IndexLog
  import opened Pebble
  import opened Layout
  import opened Cursor
  import opened Latest
  import opened NoSeal
  import opened Scan
  import opened Writer

  datatype ChunkData = ChunkData(chunkNum: U64, rel: seq<U16>, cumulativeCount: U64)

  /** The absolute indices of collected chunks, oldest chunk (the last one) first. */
  function Unwind(c: Config, chunks: seq<ChunkData>): Log {
    if chunks == [] then []
    else
      var last := chunks[|chunks| - 1];
      AbsAll(c.cs, last.chunkNum, last.rel) + Unwind(c, chunks[..|chunks| - 1])
  }

  lemma UnwindSnoc(c: Config, chunks: seq<ChunkData>, d: ChunkData)
    ensures Unwind(c, chunks + [d]) == AbsAll(c.cs, d.chunkNum, d.rel) + Unwind(c, chunks)
  {
    assert (chunks + [d])[..|chunks|] == chunks;
  }

  /** Stored chunks as any state of the store may hold them: distinct numbers, collected from
      the greatest down, none empty, and every relative index within its chunk. */
  ghost predicate AreChunks(c: Config, chunks: seq<ChunkData>) {
    && (forall i, j :: 0 <= i < j < |chunks| ==> chunks[j].chunkNum < chunks[i].chunkNum)
    && forall i :: 0 <= i < |chunks| ==> chunks[i].rel != [] && InChunk(c, chunks[i])
  }

  ghost predicate InChunk(c: Config, d: ChunkData) {
    forall j :: 0 <= j < |d.rel| ==> Chunk(c.cs, Abs(c.cs, d.chunkNum, d.rel[j])) == d.chunkNum
  }

  /** The logs that any collection of chunks can give back are exactly those whose chunk
      numbers never decrease. */
  lemma UnwindsIffOrdered(c: Config, log: Log)
    ensures (exists chunks :: AreChunks(c, chunks) && Unwind(c, chunks) == log) <==> ChunkOrdered(c.cs, log)
  {
    hide AreChunks, Unwind, ChunkOrdered;
    if chunks :| AreChunks(c, chunks) && Unwind(c, chunks) == log {
      UnwoundIsOrdered(c, chunks);
    }
    if ChunkOrdered(c.cs, log) {
      var chunks := ChunksOfOrdered(c, log);
    }
  }

  lemma {:induction false} UnwoundIsOrdered(c: Config, chunks: seq<ChunkData>)
    requires AreChunks(c, chunks)
    ensures ChunkOrdered(c.cs, Unwind(c, chunks))
    ensures chunks != [] ==> forall x :: x in Unwind(c, chunks) ==> Chunk(c.cs, x) >= chunks[|chunks| - 1].chunkNum
  {
    if chunks != [] {
      var (newer, last) := (chunks[..|chunks| - 1], chunks[|chunks| - 1]);
      UnwoundIsOrdered(c, newer);
      hide Chunk, Abs, Unwind;
      var (a, b) := (AbsAll(c.cs, last.chunkNum, last.rel), Unwind(c, newer));
      assert forall i :: 0 <= i < |a| ==> Chunk(c.cs, a[i]) == last.chunkNum;
      forall i | 0 <= i < |b| ensures Chunk(c.cs, b[i]) > last.chunkNum {
        assert newer != [] by { assert Unwind(c, []) == []; }
        assert b[i] in b;
      }
      assert Unwind(c, chunks) == a + b;
    }
  }

  /** Cuts an ordered log into its chunks. */
  lemma {:induction false} ChunksOfOrdered(c: Config, log: Log) returns (chunks: seq<ChunkData>)
    requires ChunkOrdered(c.cs, log)
    ensures AreChunks(c, chunks) && Unwind(c, chunks) == log
    ensures log != [] ==> chunks != [] && chunks[0].chunkNum == Chunk(c.cs, log[|log| - 1])
  {
    hide AreChunks, Unwind, Chunk;
    if log == [] {
      chunks := [];
      NoChunks(c);
    } else {
      var (init, x) := (log[..|log| - 1], log[|log| - 1]);
      assert log == init + [x];
      var rest := ChunksOfOrdered(c, init);
      if init != [] && rest[0].chunkNum == Chunk(c.cs, x) {
        chunks := GrowChunk(c, rest, x);
      } else {
        if init == [] {
          NoChunks(c);
          rest := [];
        }
        chunks := NewChunk(c, rest, x);
      }
    }
  }

  lemma NoChunks(c: Config)
    ensures AreChunks(c, []) && Unwind(c, []) == []
  {
  }

  lemma GrowChunk(c: Config, rest: seq<ChunkData>, x: U64) returns (chunks: seq<ChunkData>)
    requires AreChunks(c, rest) && rest != [] && rest[0].chunkNum == Chunk(c.cs, x)
    ensures AreChunks(c, chunks) && Unwind(c, chunks) == Unwind(c, rest) + [x]
    ensures chunks != [] && chunks[0].chunkNum == Chunk(c.cs, x)
  {
    var (d, older) := (rest[0], rest[1..]);
    var d' := d.(rel := d.rel + [Rel(c.cs, x)]);
    chunks := [d'] + older;
    assert rest == [d] + older;
    GrowsInChunk(c, d, x);
    UnwindJoins(c, [d], older);
    UnwindJoins(c, [d'], older);
    UnwindOne(c, d);
    UnwindOne(c, d');
    hide Unwind, Chunk, InChunk, AbsAll;
    assert forall i :: 0 < i < |chunks| ==> chunks[i] == rest[i];
  }

  lemma GrowsInChunk(c: Config, d: ChunkData, x: U64)
    requires InChunk(c, d) && d.chunkNum == Chunk(c.cs, x)
    ensures var d' := d.(rel := d.rel + [Rel(c.cs, x)]);
      InChunk(c, d') && AbsAll(c.cs, d'.chunkNum, d'.rel) == AbsAll(c.cs, d.chunkNum, d.rel) + [x]
  {
    AbsRestores(c.cs, x);
    hide Chunk, Abs, Rel;
  }

  lemma NewChunk(c: Config, rest: seq<ChunkData>, x: U64) returns (chunks: seq<ChunkData>)
    requires AreChunks(c, rest) && (rest != [] ==> rest[0].chunkNum < Chunk(c.cs, x))
    ensures AreChunks(c, chunks) && Unwind(c, chunks) == Unwind(c, rest) + [x]
    ensures chunks != [] && chunks[0].chunkNum == Chunk(c.cs, x)
  {
    var d := ChunkData(Chunk(c.cs, x), [Rel(c.cs, x)], 0);
    chunks := [d] + rest;
    AbsRestores(c.cs, x);
    hide Unwind, Chunk, Abs, Rel;
    UnwindJoins(c, [d], rest);
    UnwindOne(c, d);
    assert AbsAll(c.cs, d.chunkNum, d.rel) == [x];
  }

  lemma UnwindOne(c: Config, d: ChunkData)
    ensures Unwind(c, [d]) == AbsAll(c.cs, d.chunkNum, d.rel)
  {
    assert [d][..0] == [];
  }

  lemma {:induction false} UnwindJoins(c: Config, a: seq<ChunkData>, b: seq<ChunkData>)
    ensures Unwind(c, a + b) == Unwind(c, b) + Unwind(c, a)
  {
    if b == [] {
      assert a + b == a;
    } else {
      var k := |b| - 1;
      UnwindJoins(c, a, b[..k]);
      assert a + b == a + b[..k] + [b[k]] && b == b[..k] + [b[k]];
      UnwindSnoc(c, a + b[..k], b[k]);
      UnwindSnoc(c, b[..k], b[k]);
    }
  }

  /** What belongs to chunk `x` of the log. */
  function DataOf(c: Config, log: Log, x: U64): ChunkData
    requires |log| < TWO_64 && HasChunk(c.cs, log, x)
  {
    ChunkData(x, Rels(c.cs, Entries(c, log, x)), Below(c.cs, log, x + 1))
  }

  /** The collected chunks are exactly the chunks of the log from `x` on, latest first. */
  ghost predicate AreChunksFrom(c: Config, log: Log, chunks: seq<ChunkData>, x: U64)
    requires |log| < TWO_64
  {
    && (forall i :: 0 <= i < |chunks| ==>
         var n := chunks[i].chunkNum;
         n >= x && HasChunk(c.cs, log, n) && chunks[i] == DataOf(c, log, n))
    && (forall i, j :: 0 <= i < j < |chunks| ==> chunks[j].chunkNum < chunks[i].chunkNum)
    && (forall y: U64 :: y >= x && HasChunk(c.cs, log, y) ==> exists i :: 0 <= i < |chunks| && chunks[i].chunkNum == y)
  }

  /** The chunks from the latest down to `x` were collected, and all above `x` were needed. */
  ghost predicate Collected(c: Config, log: Log, start: U64, chunks: seq<ChunkData>, x: U64) {
    && |log| < TWO_64 && ChunkOrdered(c.cs, log)
    && HasChunk(c.cs, log, x)
    && chunks != [] && chunks[|chunks| - 1] == DataOf(c, log, x)
    && AreChunksFrom(c, log, chunks, x)
    && Unwind(c, chunks) == log[Below(c.cs, log, x)..]
    && forall y: U64 :: y > x && HasChunk(c.cs, log, y) ==> start < Below(c.cs, log, y)
  }

  /** `x` is the first chunk of the shortest chunk suffix that reaches the start-th entry. */
  ghost predicate ShortestSuffix(c: Config, log: Log, start: U64, x: U64) {
    && HasChunk(c.cs, log, x) && Below(c.cs, log, x) <= start
    && forall y: U64 :: y > x && HasChunk(c.cs, log, y) ==> start < Below(c.cs, log, y)
  }

  /** What was collected, in figures: one chunk for each chunk number from `x` on, the greatest
      first, restoring its entries of the log; at most `start` entries precede chunk `x`, and
      more precede every later one. */
  lemma CollectedInFigures(c: Config, log: Log, start: U64, chunks: seq<ChunkData>, x: U64)
    requires |log| < TWO_64 && ChunkOrdered(c.cs, log)
    requires AreChunksFrom(c, log, chunks, x) && ShortestSuffix(c, log, start, x)
    ensures Below(c.cs, log, x) <= start
    ensures forall i :: Below(c.cs, log, x) <= i < |log| && log[i] / c.cs > x ==> start < Below(c.cs, log, log[i] / c.cs)
    ensures forall i, j :: 0 <= i < j < |chunks| ==> chunks[j].chunkNum < chunks[i].chunkNum
    ensures forall i :: 0 <= i < |chunks| ==>
      var (d, b) := (chunks[i], Below(c.cs, log, chunks[i].chunkNum));
      && d.chunkNum >= x && d.cumulativeCount == Below(c.cs, log, d.chunkNum + 1) == b + |d.rel| <= |log|
      && forall j :: 0 <= j < |d.rel| ==> d.chunkNum * c.cs + d.rel[j] == log[b + j]
    ensures |chunks| == |ChunkNumbers(c.cs, log, Below(c.cs, log, x))|
  {
    hide Below, Rels, ChunkOrdered, AreChunksFrom, HasChunk, Chunk;
    forall i | 0 <= i < |chunks|
      ensures var (d, b) := (chunks[i], Below(c.cs, log, chunks[i].chunkNum));
        && d.chunkNum >= x && d.cumulativeCount == Below(c.cs, log, d.chunkNum + 1) == b + |d.rel| <= |log|
        && forall j :: 0 <= j < |d.rel| ==> d.chunkNum * c.cs + d.rel[j] == log[b + j]
    {
      ChunkInFigures(c, log, chunks, x, i);
    }
    forall i | Below(c.cs, log, x) <= i < |log| && log[i] / c.cs > x
      ensures start < Below(c.cs, log, log[i] / c.cs)
    {
      HasChunkIff(c.cs, log, log[i] / c.cs);
    }
    CountChunks(c, log, chunks, x);
    DescendingChunks(c, log, chunks, x);
  }

  lemma DescendingChunks(c: Config, log: Log, chunks: seq<ChunkData>, x: U64)
    requires |log| < TWO_64 && AreChunksFrom(c, log, chunks, x)
    ensures forall i, j :: 0 <= i < j < |chunks| ==> chunks[j].chunkNum < chunks[i].chunkNum
  {
  }

  lemma ChunkInFigures(c: Config, log: Log, chunks: seq<ChunkData>, x: U64, i: nat)
    requires |log| < TWO_64 && ChunkOrdered(c.cs, log) && AreChunksFrom(c, log, chunks, x) && i < |chunks|
    ensures var (d, b) := (chunks[i], Below(c.cs, log, chunks[i].chunkNum));
      && d.chunkNum >= x && d.cumulativeCount == Below(c.cs, log, d.chunkNum + 1) == b + |d.rel| <= |log|
      && forall j :: 0 <= j < |d.rel| ==> d.chunkNum * c.cs + d.rel[j] == log[b + j]
  {
    hide Below, Rels, ChunkOrdered;
    StoredRelsAreOrdered(c, log, chunks[i].chunkNum);
  }

  lemma CountChunks(c: Config, log: Log, chunks: seq<ChunkData>, x: U64)
    requires |log| < TWO_64 && ChunkOrdered(c.cs, log) && AreChunksFrom(c, log, chunks, x)
    ensures |chunks| == |ChunkNumbers(c.cs, log, Below(c.cs, log, x))|
  {
    var (numbers, found) := (ChunkNumbers(c.cs, log, Below(c.cs, log, x)), Numbers(chunks));
    hide Below, Rels, ChunkOrdered, HasChunk, DataOf;
    BelowCounts(c.cs, log, x);
    forall y | y in numbers ensures y in found {
      var i :| Below(c.cs, log, x) <= i < |log| && log[i] / c.cs == y;
      HasChunkIff(c.cs, log, y);
    }
    forall y | y in found ensures y in numbers {
      HasChunkIff(c.cs, log, y);
    }
    assert numbers == found;
    CountDescending(chunks);
  }

  function Numbers(chunks: seq<ChunkData>): set<int> {
    set i | 0 <= i < |chunks| :: chunks[i].chunkNum
  }

  lemma {:induction false} CountDescending(chunks: seq<ChunkData>)
    requires forall i, j :: 0 <= i < j < |chunks| ==> chunks[j].chunkNum < chunks[i].chunkNum
    ensures |Numbers(chunks)| == |chunks|
  {
    if chunks != [] {
      var (init, last) := (chunks[..|chunks| - 1], chunks[|chunks| - 1]);
      CountDescending(init);
      assert forall i :: 0 <= i < |init| ==> chunks[i] == init[i];
      assert Numbers(chunks) == Numbers(init) + {last.chunkNum};
      assert last.chunkNum !in Numbers(init);
    }
  }

  lemma CollectedLatest(c: Config, log: Log, start: U64, x: U64)
    requires |log| < TWO_64 && ChunkOrdered(c.cs, log)
    requires HasChunk(c.cs, log, x) && IsLatest(c, log, x)
    ensures Collected(c, log, start, [DataOf(c, log, x)], x)
  {
    EntriesRestored(c, log, x);
    var d := DataOf(c, log, x);
    assert [d][..0] == [];
    assert Unwind(c, [d]) == AbsAll(c.cs, d.chunkNum, d.rel) + Unwind(c, []);
    hide Rels, AbsAll, Unwind;
    forall y: U64 | y > x ensures !HasChunk(c.cs, log, y) {
      BelowMonotone(c.cs, log, x + 1, y);
    }
    assert Entries(c, log, x) == log[Below(c.cs, log, x)..];
    assert [d][0].chunkNum == x;
  }

  lemma ChunksFromOlder(c: Config, log: Log, chunks: seq<ChunkData>, x: U64, x': U64)
    requires |log| < TWO_64 && ChunkOrdered(c.cs, log) && AreChunksFrom(c, log, chunks, x)
    requires x' < x && HasChunk(c.cs, log, x') && Below(c.cs, log, x' + 1) == Below(c.cs, log, x)
    ensures AreChunksFrom(c, log, chunks + [DataOf(c, log, x')], x')
  {
    hide Below, Rels, ChunkOrdered;
    var d := DataOf(c, log, x');
    var all := chunks + [d];
    forall y: U64 | y >= x' && HasChunk(c.cs, log, y)
      ensures exists i :: 0 <= i < |all| && all[i].chunkNum == y
    {
      if y >= x {
        var i :| 0 <= i < |chunks| && chunks[i].chunkNum == y;
        assert all[i] == chunks[i];
      } else if y > x' {
        BelowMonotone(c.cs, log, x' + 1, y);
        BelowMonotone(c.cs, log, y + 1, x);
      } else {
        assert all[|chunks|] == d;
      }
    }
  }

  /** One step down: chunk `x'` is the greatest chunk below `x`. */
  lemma CollectedOlder(c: Config, log: Log, start: U64, chunks: seq<ChunkData>, x: U64, x': U64)
    requires Collected(c, log, start, chunks, x) && start < Below(c.cs, log, x)
    requires x' < x && HasChunk(c.cs, log, x') && Below(c.cs, log, x' + 1) == Below(c.cs, log, x)
    ensures Collected(c, log, start, chunks + [DataOf(c, log, x')], x')
  {
    EntriesRestored(c, log, x');
    UnwindSnoc(c, chunks, DataOf(c, log, x'));
    ChunksFromOlder(c, log, chunks, x, x');
    hide Rels, AbsAll, Unwind, ChunkOrdered, AreChunksFrom;
    var (b, e) := (Below(c.cs, log, x'), Below(c.cs, log, x));
    assert log[b..e] + log[e..] == log[b..];
    forall y: U64 | y > x' && HasChunk(c.cs, log, y) ensures start < Below(c.cs, log, y) {
      if y < x {
        BelowMonotone(c.cs, log, x' + 1, y);
        BelowMonotone(c.cs, log, y + 1, x);
      }
    }
  }

  /** Turns the collected chunks into absolute indices, in forward order, and slices them. */
  method Finish(c: Config, chunks: seq<ChunkData>, start: U64, ghost log: Log, ghost x: U64)
    returns (r: Result<Log>)
    requires Collected(c, log, start, chunks, x) && Below(c.cs, log, x) <= start
    ensures r == Ok(Suffix(log, start))
  {
    hide Below, AbsAll, Rels, ChunkOrdered, AreChunksFrom;
    var indices: Log := [];
    assert chunks[..|chunks|] == chunks;
    var i := |chunks| - 1;
    while i >= 0
      invariant -1 <= i < |chunks|
      invariant indices + Unwind(c, chunks[..i + 1]) == Unwind(c, chunks)
    {
      var b := chunks[i];
      UnwindSnoc(c, chunks[..i], b);
      assert chunks[..i] + [b] == chunks[..i + 1];
      indices := AppendAbsolute(c, indices, b.chunkNum, b.rel);
      i := i - 1;
    }
    var oldest := chunks[|chunks| - 1];
    if oldest.cumulativeCount < |oldest.rel| {
      return Err(BadCount);
    }
    var startOffset := oldest.cumulativeCount - |oldest.rel|;
    if start < startOffset {
      return Err(InvariantViolated);
    }
    var offset := start - startOffset;
    if offset >= |indices| {
      return Ok([]);
    }
    assert indices[offset..] == log[start..];
    return Ok(indices[offset..]);
  }

  lemma OlderStep(c: Config, rs: seq<Record>, key: Key, log: Log, at: int, n: nat)
    requires Standing(c, rs, key, log, at, n) && !c.kind.Inverted()
    ensures 0 <= at <= |rs|
    ensures at > 0 && HasPrefix(rs[at - 1].key, Prefix(c.kind, key)) ==>
      && |rs[at - 1].key| == 41
      && var x: nat := ChunkNumOf(c.kind, rs[at - 1].key);
      && x < n && HasChunk(c.cs, log, x) && Below(c.cs, log, x + 1) == Below(c.cs, log, n)
      && rs[at - 1] == Record(RecordKey(c.kind, key, x), StoredValue(c, log, x))
      && Standing(c, rs, key, log, at - 1, x)
    ensures !(at > 0 && HasPrefix(rs[at - 1].key, Prefix(c.kind, key))) ==> Below(c.cs, log, n) == 0
  {
    hide StoredValue, HasChunk, Below, Less, Contents;
    OlderChunk(c, rs, key, log, at, n);
    if at > 0 {
      assert rs[at - 1] == Record(rs[at - 1].key, rs[at - 1].value);
    }
  }

  /** The loop of ChunkStore.Lookup: from the latest chunk down to the first that reaches
      `start`. It returns exactly the chunks of the shortest such suffix, and never runs off
      the first chunk of the key. */
  method CollectBackward(c: Config, db: DB, key: Key, start: U64, ghost log: Log)
    returns (r: Result<seq<ChunkData>>, ghost oldest: U64)
    requires c.kind.ChunkStore? && db.Valid() && Rep(c, db.State(), key, log)
    ensures r.Ok? && (r.value == [] <==> log == [])
    ensures log != [] ==> Collected(c, log, start, r.value, oldest) && ShortestSuffix(c, log, start, oldest)
    ensures log != [] ==> |log| < TWO_64 && AreChunksFrom(c, log, r.value, oldest)
  {
    hide Rep, Snapshot, ChunkCut, StoredValue, HasChunk, Below, RecordKey, Contents, Standing, Rank, Less, Collected, DataOf, RangeBefore, Rels, ChunkOrdered, ShortestSuffix, AreChunksFrom;
    var prefix := Prefix(c.kind, key);
    oldest := 0;
    var iter := db.NewIter(None);
    NewSnapshot(c, db, key, log);
    var latest := SeekLatest(c, key, iter, log);
    if latest.None? {
      return Ok([]), 0;
    }
    ghost var (rs, n: nat) := (iter.snapshot, TWO_64);
    LatestStands(c, rs, key, log, iter.pos + 1);
    var chunks: seq<ChunkData> := [];
    while true
      invariant iter.mode == None && 0 <= iter.pos < |rs| && HasPrefix(rs[iter.pos].key, prefix)
      invariant Standing(c, rs, key, log, iter.pos + 1, n)
      invariant chunks == [] ==> Below(c.cs, log, n) == |log|
      invariant chunks != [] ==> Collected(c, log, start, chunks, oldest) && n == oldest
      invariant chunks != [] ==> start < Below(c.cs, log, n)
      decreases iter.pos
    {
      OlderStep(c, rs, key, log, iter.pos + 1, n);
      if |iter.Key()| != 41 {
        return Err(BadKeyLength), oldest;
      }
      ghost var x := ChunkNumOf(c.kind, iter.Key());
      var chunk := ReadChunk(c, Record(iter.Key(), iter.Value()), key, log, x);
      if chunk.Err? {
        return chunk.PropagateFailure(), oldest;
      }
      var end := chunk.value.1.size;
      var rel := chunk.value.2;
      ChunkSizes(c, log, x);
      CollectNext(c, log, start, chunks, oldest, x);
      chunks := chunks + [ChunkData(chunk.value.0, rel, end + |rel|)];
      oldest := x;
      n := x;
      if end <= start {
        break;
      }
      OlderStep(c, rs, key, log, iter.pos, n);
      var more := iter.Prev();
      if !more || !HasPrefix(iter.Key(), prefix) {
        assert false;
        break;
      }
    }
    CollectedIsShortest(c, log, start, chunks, oldest);
    return Ok(chunks), oldest;
  }

  /** ChunkStore.Lookup: walk backwards from the latest chunk, then slice. */
  method LookupBackward(c: Config, db: DB, key: Key, start: U64, ghost log: Log) returns (r: Result<Log>)
    requires c.kind.ChunkStore? && db.Valid() && Rep(c, db.State(), key, log)
    ensures r == Ok(Suffix(log, start))
  {
    hide Rep, Collected, Below;
    var collected, oldest := CollectBackward(c, db, key, start, log);
    if collected.Err? {
      return collected.PropagateFailure();
    }
    if |collected.value| == 0 {
      return Ok([]);
    }
    r := Finish(c, collected.value, start, log, oldest);
  }

  lemma LatestStands(c: Config, rs: seq<Record>, key: Key, log: Log, at: int)
    requires Snapshot(c, rs, key, log) && ChunkCut(c.kind, rs, key, at, TWO_64)
    ensures Standing(c, rs, key, log, at, TWO_64)
    ensures Below(c.cs, log, TWO_64) == |log| < TWO_64 && ChunkOrdered(c.cs, log)
  {
  }

  /** The stored range of a chunk counts the entries before it. */
  lemma ChunkSizes(c: Config, log: Log, x: U64)
    requires |log| < TWO_64 && HasChunk(c.cs, log, x)
    ensures RangeBefore(c, log, x).size == Below(c.cs, log, x)
    ensures |Rels(c.cs, Entries(c, log, x))| == Below(c.cs, log, x + 1) - Below(c.cs, log, x)
    ensures DataOf(c, log, x) == ChunkData(x, Rels(c.cs, Entries(c, log, x)), Below(c.cs, log, x + 1))
    ensures Below(c.cs, log, x + 1) < TWO_64
  {
  }

  lemma CollectNext(c: Config, log: Log, start: U64, chunks: seq<ChunkData>, x: U64, x': U64)
    requires |log| < TWO_64 && ChunkOrdered(c.cs, log) && HasChunk(c.cs, log, x')
    requires chunks == [] ==> Below(c.cs, log, x' + 1) == |log|
    requires chunks != [] ==>
      && Collected(c, log, start, chunks, x) && start < Below(c.cs, log, x)
      && x' < x && Below(c.cs, log, x' + 1) == Below(c.cs, log, x)
    ensures Collected(c, log, start, chunks + [DataOf(c, log, x')], x')
  {
    hide Collected, Below, DataOf;
    if chunks == [] {
      CollectedLatest(c, log, start, x');
      assert chunks + [DataOf(c, log, x')] == [DataOf(c, log, x')];
    } else {
      CollectedOlder(c, log, start, chunks, x, x');
    }
  }

  lemma CollectedIsShortest(c: Config, log: Log, start: U64, chunks: seq<ChunkData>, x: U64)
    requires Collected(c, log, start, chunks, x) && Below(c.cs, log, x) <= start
    ensures |log| < TWO_64 && AreChunksFrom(c, log, chunks, x) && ShortestSuffix(c, log, start, x)
  {
  }
}
