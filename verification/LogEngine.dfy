/** LogStore: one record per index; the greatest carries the range, all others only a flag. */
module LogEngine {
  import opened ByteStrings
  import opened Merkle
  import opened Codec
  import opened IndexLog
  import opened Pebble
  import opened Layout
  import opened Cursor
  import opened Writer
  import opened Latest
  import opened Scan
  import NoSeal

  predicate IsLog(c: Config) {
    c.kind.LogStore? && c.cs == 1
  }

  lemma AppendIndexPresence(log: Log, x: U64, n: U64)
    requires ChunkOrdered(1, log + [x])
    ensures HasChunk(1, log + [x], n) <==> HasChunk(1, log, n) || n == x
  {
    ChunkOfOne(x);
    ChunkOrderedPrefix(1, log, [x]);
    BelowAppend(1, log, x, n);
    BelowAppend(1, log, x, n + 1);
    if n == x {
      assert (log + [x])[|log|] == x;
      ChunkOfEntryPresent(1, log + [x], |log|);
    } else if n > x {
      NothingBeyond(1, log, x, n);
    }
  }

  /** The store in the middle of a batch. As long as the indices come in order, every index of
      the log has a record, and all records are flagged older. */
  ghost predicate AllOlder(c: Config, m: map<Bytes, Bytes>, key: Key, log: Log) {
    ChunkOrdered(1, log) ==> forall k: Bytes :: HasPrefix(k, Prefix(c.kind, key)) ==>
      && (k in m <==> |k| == 41 && HasChunk(1, log, ChunkNumOf(c.kind, k)))
      && (k in m ==> m[k] == [FLAG_OLDER])
  }

  /** Flagging the latest record as older. */
  lemma OlderAtStart(c: Config, m: map<Bytes, Bytes>, key: Key, log: Log, prev: Option<Record>)
    requires IsLog(c) && Rep(c, m, key, log) && IsLatestRecord(c, key, log, prev)
    ensures prev.None? ==> log == [] && AllOlder(c, m, key, log)
    ensures prev.Some? ==> log != [] && AllOlder(c, m[prev.value.key := [FLAG_OLDER]], key, log)
    ensures prev.Some? ==> SameOutside(Prefix(c.kind, key), m, m[prev.value.key := [FLAG_OLDER]])
    ensures prev.Some? ==> prev.value.value == LogLatestBytes(WholeRange(c, log))
  {
    hide LogLatestBytes, Below, HasChunk, StoredValue, AllOlder, RecordOk, SameOutside;
    if prev.None? {
      OlderOfEmpty(c, m, key);
    } else {
      OlderOfLatest(c, m, key, log);
    }
  }

  lemma OlderOfEmpty(c: Config, m: map<Bytes, Bytes>, key: Key)
    requires IsLog(c) && Rep(c, m, key, [])
    ensures AllOlder(c, m, key, [])
  {
    hide Below, StoredValue;
    forall k: Bytes | HasPrefix(k, Prefix(c.kind, key))
      ensures k !in m
      ensures |k| == 41 ==> !HasChunk(1, [], ChunkNumOf(c.kind, k))
    {
      assert RecordOk(c, m, [], k);
      if |k| == 41 { NoChunkInEmptyLog(1, ChunkNumOf(c.kind, k)); }
    }
  }

  lemma OlderOfLatest(c: Config, m: map<Bytes, Bytes>, key: Key, log: Log)
    requires IsLog(c) && Rep(c, m, key, log) && log != []
    ensures var n := Chunk(1, log[|log| - 1]);
      && HasChunk(1, log, n) && StoredValue(c, log, n) == LogLatestBytes(WholeRange(c, log))
      && AllOlder(c, m[RecordKey(c.kind, key, n) := [FLAG_OLDER]], key, log)
      && SameOutside(Prefix(c.kind, key), m, m[RecordKey(c.kind, key, n) := [FLAG_OLDER]])
  {
    var n := Chunk(1, log[|log| - 1]);
    CurrentChunkFacts(c, log, n);
    RecordKeyRoundTrip(c.kind, key, n);
    OlderBesides(c, m, key, log, n);
    hide LogLatestBytes, Below, HasChunk, WholeRange, ChunkOrdered, RecordOk, Rep;
  }

  /** All records but that of the latest chunk are flagged older already. */
  lemma OlderBesides(c: Config, m: map<Bytes, Bytes>, key: Key, log: Log, n: U64)
    requires IsLog(c) && Rep(c, m, key, log)
    requires forall k: U64 :: k != n && HasChunk(1, log, k) ==> Below(1, log, k + 1) < |log|
    ensures forall k: Bytes :: HasPrefix(k, Prefix(c.kind, key)) && k != RecordKey(c.kind, key, n) ==>
      && (k in m <==> |k| == 41 && HasChunk(1, log, ChunkNumOf(c.kind, k)))
      && (k in m ==> m[k] == [FLAG_OLDER])
  {
    hide LogLatestBytes, Below, HasChunk, WholeRange, ChunkOrdered;
    forall k: Bytes | HasPrefix(k, Prefix(c.kind, key)) && k != RecordKey(c.kind, key, n)
      ensures k in m <==> |k| == 41 && HasChunk(1, log, ChunkNumOf(c.kind, k))
      ensures k in m ==> m[k] == [FLAG_OLDER]
    {
      assert RecordOk(c, m, log, k);
      if |k| == 41 { RecordKeyOfKey(c.kind, key, k); }
    }
  }

  /** Writing an intermediate index. */
  lemma OlderAfterSet(c: Config, m: map<Bytes, Bytes>, key: Key, log: Log, x: U64)
    requires IsLog(c) && AllOlder(c, m, key, log)
    ensures AllOlder(c, m[RecordKey(c.kind, key, x) := [FLAG_OLDER]], key, log + [x])
  {
    hide HasChunk, ChunkOrdered;
    RecordKeyRoundTrip(c.kind, key, x);
    if ChunkOrdered(1, log + [x]) {
      ChunkOrderedPrefix(1, log, [x]);
      forall k: Bytes | HasPrefix(k, Prefix(c.kind, key))
        ensures |k| == 41 ==> (HasChunk(1, log + [x], ChunkNumOf(c.kind, k)) <==>
          HasChunk(1, log, ChunkNumOf(c.kind, k)) || k == RecordKey(c.kind, key, x))
      {
        if |k| == 41 {
          AppendIndexPresence(log, x, ChunkNumOf(c.kind, k));
          RecordKeyOfKey(c.kind, key, k);
        }
      }
    }
  }

  /** Writing the last index of the batch as latest completes the layout. */
  lemma RepAfterSet(c: Config, m: map<Bytes, Bytes>, key: Key, log: Log, x: U64, v: Bytes)
    requires IsLog(c) && AllOlder(c, m, key, log) && |log| + 1 < TWO_64
    requires v == LogLatestBytes(WholeRange(c, log + [x]))
    ensures ChunkOrdered(c.cs, log + [x]) ==> Rep(c, m[RecordKey(c.kind, key, x) := v], key, log + [x])
  {
    hide LogLatestBytes, WholeRange, Rep;
    if ChunkOrdered(1, log + [x]) {
      ChunkOrderedPrefix(1, log, [x]);
      RepOfOrdered(c, m, key, log, x, v);
    }
  }

  lemma RepOfOrdered(c: Config, m: map<Bytes, Bytes>, key: Key, log: Log, x: U64, v: Bytes)
    requires IsLog(c) && AllOlder(c, m, key, log) && ChunkOrdered(1, log) && ChunkOrdered(1, log + [x]) && |log| + 1 < TWO_64
    requires v == LogLatestBytes(WholeRange(c, log + [x]))
    ensures Rep(c, m[RecordKey(c.kind, key, x) := v], key, log + [x])
  {
    var all := log + [x];
    var m' := m[RecordKey(c.kind, key, x) := v];
    assert all[|all| - 1] == x;
    ChunkOfOne(x);
    CurrentChunkFacts(c, all, x);
    RecordKeyRoundTrip(c.kind, key, x);
    hide Below, LogLatestBytes, HasChunk, WholeRange, ChunkOrdered;
    forall k: Bytes | HasPrefix(k, Prefix(c.kind, key))
      ensures RecordOk(c, m', all, k)
    {
      if |k| == 41 {
        AppendIndexPresence(log, x, ChunkNumOf(c.kind, k));
        RecordKeyOfKey(c.kind, key, k);
      }
    }
  }

  lemma EmptyRange(c: Config)
    ensures RangeOf(c.h, []) == Range(0, [])
  {
    assert Leaves([]) == [];
  }

  /** LogStore.WriteBatch for one key. The code does not check that the indices are sorted and
      continue the log; when they do, the records afterwards are those of the extended log. No
      other prefix is touched. */
  method WriteKey(c: Config, key: Key, newIndices: Log, prev: Option<Record>, batch: Batch,
                  ghost m: map<Bytes, Bytes>, ghost log: Log)
    returns (r: Result<()>)
    requires IsLog(c) && newIndices != [] && |log + newIndices| < TWO_64
    requires Rep(c, Overlay(m, batch), key, log) && IsLatestRecord(c, key, log, prev)
    modifies batch
    ensures r.Ok?
    ensures ChunkOrdered(c.cs, log + newIndices) ==> Rep(c, Overlay(m, batch), key, log + newIndices)
    ensures SameOutside(Prefix(c.kind, key), old(Overlay(m, batch)), Overlay(m, batch))
  {
    hide Rep, IsLatestRecord, StoredValue, AllOlder, Below, HasChunk, ChunkOrdered, SameOutside, RangeOf, RecordKey,
      Contents, LogLatestBytes, Prefix, Overlay;
    ghost var before := Overlay(m, batch);
    var p := Prefix(c.kind, key);
    OlderAtStart(c, before, key, log, prev);
    SameOutsideReflexive(p, before);
    EmptyRange(c);
    var range: CompactRange;
    if prev.Some? {
      var latest := DeserializeLogLatest(prev.value.value);
      if latest.Err? {
        return latest.PropagateFailure();
      }
      range := new CompactRange(c.h, latest.value);
      SetRecord(batch, prev.value.key, [FLAG_OLDER], m);
    } else {
      range := new CompactRange(c.h, Range(0, []));
    }
    var i := 0;
    ghost var done := log;
    assert newIndices[..0] == [] && log + [] == log;
    while i < |newIndices| - 1
      invariant 0 <= i < |newIndices| && done == log + newIndices[..i]
      invariant fresh(range) && range.h == c.h && range.Value() == RangeOf(c.h, done)
      invariant AllOlder(c, Overlay(m, batch), key, done)
      invariant SameOutside(p, before, Overlay(m, batch))
    {
      var idx := newIndices[i];
      NoSeal.PrefixOfUpdates(log, newIndices, i);
      range.AppendIndex(idx, done);
      ghost var mid := Overlay(m, batch);
      OlderAfterSet(c, mid, key, done, idx);
      SetStaysInPrefix(c, mid, key, idx, [FLAG_OLDER]);
      SetRecord(batch, RecordKey(c.kind, key, idx), [FLAG_OLDER], m);
      SameOutsideTransitive(p, before, mid, Overlay(m, batch));
      done := done + [idx];
      i := i + 1;
    }
    var lastIdx := newIndices[|newIndices| - 1];
    NoSeal.PrefixOfUpdates(log, newIndices, i);
    range.AppendIndex(lastIdx, done);
    RangeOfIsValid(c.h, done + [lastIdx]);
    var value := SerializeLogLatest(range);
    ghost var mid := Overlay(m, batch);
    RepAfterSet(c, mid, key, done, lastIdx, value);
    SetStaysInPrefix(c, mid, key, lastIdx, value);
    SetRecord(batch, RecordKey(c.kind, key, lastIdx), value, m);
    SameOutsideTransitive(p, before, mid, Overlay(m, batch));
    assert newIndices[..i + 1] == newIndices;
    return Ok(());
  }

  /** What LogStore.Lookup answers: equal indices share a record, so each counts once. */
  function LogAnswer(log: Log, start: nat): Log {
    Suffix(Distinct(log), start)
  }

  /** Entry by entry: from start 0 every index of the log once, in order, and from any other
      start what is left of that. */
  lemma LogAnswerElements(log: Log, start: nat)
    requires NonDecreasing(log)
    ensures Increasing(LogAnswer(log, 0)) && forall x :: x in LogAnswer(log, 0) <==> x in log
    ensures var (all, r) := (LogAnswer(log, 0), LogAnswer(log, start));
      && |r| == (if start >= |all| then 0 else |all| - start)
      && forall i :: 0 <= i < |r| ==> r[i] == all[start + i]
  {
    DistinctKeepsEach(log);
    SuffixElements(Distinct(log), start);
    assert Suffix(Distinct(log), 0) == Distinct(log);
    hide Distinct, NonDecreasing;
  }

  /** LogStore answers with the promised suffix from every start exactly when no index of the
      log is repeated. */
  lemma LogIsExactIff(log: Log)
    requires NonDecreasing(log)
    ensures (forall start: nat :: LogAnswer(log, start) == Suffix(log, start)) <==> Increasing(log)
  {
    DistinctIsExactIff(log);
    if forall start: nat :: LogAnswer(log, start) == Suffix(log, start) {
      assert LogAnswer(log, 0) == Suffix(log, 0);
      assert Suffix(log, 0) == log;
      assert Suffix(Distinct(log), 0) == Distinct(log);
    }
  }

  /** With a duplicate index, one record per index loses an entry. */
  lemma LogOnDuplicates()
    ensures NonDecreasing([0, 0, 5])
    ensures LogAnswer([0, 0, 5], 0) == [0, 5] && Suffix([0, 0, 5], 0) == [0, 0, 5]
    ensures LogAnswer([0, 0, 5], 1) == [5] && Suffix([0, 0, 5], 1) == [0, 5]
  {
    var log: Log := [0, 0, 5];
    assert log[..2] == [0, 0] && log[..2][..1] == [0] && [0][..0] == [];
    assert Distinct(log[..2]) == Distinct([0]) == [0];
    assert Distinct(log) == Distinct(log[..2]) + [5] == [0, 5];
  }

  lemma DistinctNext(log: Log, n: nat, x: U64)
    requires ChunkOrdered(1, log) && HasChunk(1, log, x) && Below(1, log, x) == Below(1, log, n)
    ensures Distinct(log[..Below(1, log, x + 1)]) == Distinct(log[..Below(1, log, n)]) + [x]
  {
    var (a, b) := (Below(1, log, x), Below(1, log, x + 1));
    EntriesOfChunk(1, log, x);
    BelowSplits(1, log, x);
    forall i | 0 <= i < |log| ensures Chunk(1, log[i]) == log[i] {
      ChunkOfOne(log[i]);
    }
    hide Below;
    DistinctOfRun(log, x, a, b);
  }

  lemma PrefixSeekStands(c: Config, rs: seq<Record>, key: Key, log: Log)
    requires Snapshot(c, rs, key, log) && !c.kind.Inverted()
    ensures Standing(c, rs, key, log, Rank(rs, Prefix(c.kind, key)), 0)
    ensures Below(c.cs, log, 0) == 0
  {
    hide StoredValue, HasChunk, Below, Less, Contents, Cut;
    SnapshotIsWellKeyed(c, rs, key, log);
    CutAtPrefix(rs, Prefix(c.kind, key));
    BelowZero(c.cs, log);
  }

  method Lookup(c: Config, db: DB, key: Key, start: U64, ghost log: Log) returns (r: Result<Log>)
    requires IsLog(c) && db.Valid() && Rep(c, db.State(), key, log)
    ensures r == Ok(LogAnswer(log, start))
  {
    hide Rep, Snapshot, ChunkCut, StoredValue, HasChunk, Below, RecordKey, Contents, Standing, Rank, Less, ChunkOrdered, Distinct;
    var prefix := Prefix(c.kind, key);
    var upperBound := PrefixUpperBound(prefix);
    UpperBoundExists(c.kind, key);
    var iter := db.NewIter(upperBound);
    NewSnapshot(c, db, key, log);
    BoundedSnapshot(c, db.records, key, log, upperBound.value);
    ghost var (rs, n: nat) := (iter.snapshot, 0);
    PrefixSeekStands(c, rs, key, log);
    assert log[..0] == [];
    DistinctOfNone();
    var indices: Log := [];
    var valid := iter.SeekGE(prefix);
    while valid
      invariant iter.mode == None && valid == iter.Valid()
      invariant Standing(c, rs, key, log, iter.pos, n)
      invariant indices == Distinct(log[..Below(1, log, n)])
      decreases |rs| - iter.pos
    {
      Step(c, rs, key, log, iter.pos, n);
      BoundedStep(c, rs, key, log, iter.pos, n);
      if !HasPrefix(iter.Key(), prefix) {
        assert false;
        break;
      }
      if |iter.Key()| != 41 {
        return Err(BadKeyLength);
      }
      var idx := ChunkNumOf(c.kind, iter.Key());
      DistinctNext(log, n, idx);
      indices := indices + [idx];
      n := idx as nat + 1;
      valid := iter.Next();
    }
    Step(c, rs, key, log, iter.pos, n);
    assert log[..|log|] == log;
    if start >= |indices| {
      return Ok([]);
    }
    return Ok(indices[start..]);
  }

  lemma DistinctOfNone()
    ensures Distinct([]) == []
  {
  }

  method GetSubRoot(c: Config, db: DB, key: Key, ghost log: Log) returns (r: Result<Hash>)
    requires IsLog(c) && db.Valid() && Rep(c, db.State(), key, log)
    ensures r == Ok(LogRoot(c.h, log))
  {
    hide LogLatestBytes, RecordKey, HasChunk, Below, RecordOk, RangeOf, TreeHash;
    var iter := db.NewIter(None);
    var latest := SeekLatest(c, key, iter, log);
    if latest.None? {
      NoSeal.EmptyRoot(c.h);
      return Ok(c.h.empty);
    }
    var v := DeserializeLogLatest(latest.value.value);
    if v.Err? {
      return v.PropagateFailure();
    }
    var range := new CompactRange(c.h, v.value);
    var root := range.SubRoot(log);
    if root.None? {
      return Err(RootFailed);
    }
    return Ok(root.value);
  }
}
