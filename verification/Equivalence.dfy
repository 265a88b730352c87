/** All eight stores are observationally equal on logs without repetitions, and exactly where
    they differ on logs with repetitions. */
module Equivalence {
  import opened ByteStrings
  import opened Merkle
  import opened Codec
  import opened IndexLog
  import opened Layout
  import opened IndexStores
  import LogEngine
  import Backward

  /** Strictly increasing logs suit every store. */
  lemma IncreasingSuitsAll(c: Config, log: IndexLog.Log)
    requires Increasing(log)
    ensures InOrder(c, log) && NoRepeats(log)
  {
    IncreasingIffNoRepeats(log);
    NonDecreasingIsChunkOrdered(c.cs, log);
  }

  /** When a lookup gives the promised suffix, store by store: the flat
      store, the backward walk and the chain walk always; the scans exactly when at most `start`
      entries lie below the chunk they seek; one record per index exactly when there is nothing
      to return or no index is repeated. */
  lemma AnswerIsExactIff(c: Config, log: IndexLog.Log, start: U64)
    requires c.Valid() && InOrder(c, log)
    ensures Answer(c, log, start) == Ok(Suffix(log, start)) <==>
      match c.kind
      case FlatStore => true
      case ChunkStore => true
      case SealingChunkStore => true
      case LogStore => start >= |log| || Increasing(log)
      case _ => Below(c.cs, log, Chunk(c.cs, start)) <= start
  {
    hide Below, ScanAnswer, LogEngine.LogAnswer, ChunkOrdered, NonDecreasing, Increasing;
    ScanIsExactIff(c.cs, log, start);
    if c.kind.LogStore? {
      ChunkOrderOfOne(log);
      LogIsExactAt(log, start);
    }
  }

  lemma LogIsExactAt(log: IndexLog.Log, start: nat)
    requires NonDecreasing(log)
    ensures LogEngine.LogAnswer(log, start) == Suffix(log, start) <==> start >= |log| || Increasing(log)
  {
    DistinctIsExactIff(log);
    DistinctLength(log);
    hide Distinct, Increasing, NonDecreasing;
    if start < |log| && !Increasing(log) {
      assert |Suffix(Distinct(log), start)| < |Suffix(log, start)|;
    }
  }

  lemma {:induction false} DistinctLength(log: IndexLog.Log)
    ensures |Distinct(log)| == |log| ==> Distinct(log) == log
  {
    if log != [] {
      var k := |log| - 1;
      DistinctLength(log[..k]);
      assert log == log[..k] + [log[k]];
    }
  }

  /** One batch for one key on a fresh store, then one lookup. */
  method LookupAfterBatch(c: Config, key: Key, indices: IndexLog.Log, start: U64) returns (r: Result<IndexLog.Log>)
    requires c.Valid() && NonDecreasing(indices) && |indices| < TWO_64
    ensures r == Answer(c, indices, start)
  {
    hide NonDecreasing, ChunkOrdered, AllRep, Answer;
    NonDecreasingIsChunkOrdered(c.cs, indices);
    var s := new IndexStore(c);
    var updates: Updates := map[key := indices];
    assert LogOf(map[], key) + indices == indices;
    GoodBatchIsAccepted(c, map[], updates);
    var written := s.WriteBatch(updates);
    r := s.Lookup(key, start);
  }

  /** A sorted batch with a repeated index, which every store accepts, and three answers to the
      same lookup: the backward walk is right, the log store loses an entry, the scan fails. */
  method RepeatedIndex(h: Hasher, key: Key) returns (walked: Result<IndexLog.Log>, logged: Result<IndexLog.Log>,
                                                     scanned: Result<IndexLog.Log>)
    ensures Suffix([0, 0, 5], 1) == [0, 5] && NonDecreasing([0, 0, 5])
    ensures walked == Ok([0, 5])
    ensures logged == Ok([5])
    ensures scanned == Err(InvariantViolated)
  {
    hide Distinct, Below, ScanAnswer, LogEngine.LogAnswer;
    ScanOnDuplicates();
    LogEngine.LogOnDuplicates();
    walked := LookupAfterBatch(Config(ChunkStore, h, 1), key, [0, 0, 5], 1);
    logged := LookupAfterBatch(Config(LogStore, h, 1), key, [0, 0, 5], 1);
    scanned := LookupAfterBatch(Config(ChunkScanStore, h, 1), key, [0, 0, 5], 1);
  }

  /** A batch that takes one key back to a lower chunk, which no store checks: it is accepted,
      no collection of chunks can give that key's log back any more, and the other key of the
      same batch answers as if nothing had happened. */
  method OutOfOrder(h: Hasher, key: Key, other: Key) returns (first: Result<()>, second: Result<()>, r: Result<IndexLog.Log>)
    requires key != other
    ensures first.Ok? && second.Ok?
    ensures forall chunks :: Backward.AreChunks(Config(ChunkStore, h, 1), chunks) ==>
      Backward.Unwind(Config(ChunkStore, h, 1), chunks) != [5, 3]
    ensures r == Ok([7])
  {
    hide NonDecreasing, ChunkOrdered, AllRep, Answer, Refused, Disordered, Fits, GoodBatch, Extend, Suffix, Backward.Unwind, Backward.AreChunks;
    var c := Config(ChunkStore, h, 1);
    var s := new IndexStore(c);
    var a: Updates := map[key := [5]];
    var b: Updates := map[key := [3], other := [7]];
    FirstBatch(c, key, a);
    SecondBatch(c, Extend(map[], a), key, other, b);
    BackToLowerChunk();
    Backward.UnwindsIffOrdered(c, [5, 3]);
    AnswerOfOne(c, 7);
    first := s.WriteBatch(a);
    second := s.WriteBatch(b);
    r := s.Lookup(other, 0);
  }

  lemma FirstBatch(c: Config, key: Key, a: Updates)
    requires c.kind.ChunkStore? && c.cs == 1 && a == map[key := [5]]
    ensures Fits(map[], a) && !Refused(c, a) && Disordered(c, map[], a) == {}
    ensures forall k: Key :: LogOf(Extend(map[], a), k) == if k == key then [5] else []
  {
    hide Extend;
    assert LogOf(map[], key) + a[key] == [5];
  }

  lemma SecondBatch(c: Config, logs: Logs, key: Key, other: Key, b: Updates)
    requires c.kind.ChunkStore? && c.cs == 1 && key != other && b == map[key := [3], other := [7]]
    requires forall k: Key :: LogOf(logs, k) == if k == key then [5] else []
    ensures Fits(logs, b) && !Refused(c, b) && Disordered(c, logs, b) == {key}
    ensures LogOf(Extend(logs, b), other) == [7]
  {
    hide LogOf;
    BackToLowerChunk();
    assert LogOf(logs, key) + b[key] == [5, 3];
    assert LogOf(logs, other) + b[other] == [7];
    SecondExtends(logs, b, other);
  }

  lemma SecondExtends(logs: Logs, b: Updates, other: Key)
    requires other in b && b[other] == [7] && LogOf(logs, other) == []
    ensures LogOf(Extend(logs, b), other) == [7]
  {
    assert LogOf(b, other) == [7];
  }

  lemma AnswerOfOne(c: Config, x: U64)
    requires c.kind.ChunkStore?
    ensures Answer(c, [x], 0) == Ok([x])
  {
  }

  lemma BackToLowerChunk()
    ensures !ChunkOrdered(1, [5, 3])
  {
    var log: IndexLog.Log := [5, 3];
    assert Chunk(1, log[0]) > Chunk(1, log[1]);
  }

  /** The same run of batches on two fresh stores of any kind and any chunk size: lookups of a
      key whose log repeats no index agree with each other and with its log, and so do the
      roots, although the stored records differ. */
  method CrossEngineConsistency(a: Config, b: Config, run: seq<Updates>, key: Key, start: U64)
    returns (found: (Result<IndexLog.Log>, Result<IndexLog.Log>), roots: (Result<Hash>, Result<Hash>))
    requires a.Valid() && b.Valid() && a.h == b.h
    requires GoodRun(a, map[], run) && GoodRun(b, map[], run)
    requires NoRepeats(LogOf(LogsAfter(map[], run), key))
    ensures found.0 == found.1 == Ok(Suffix(LogOf(LogsAfter(map[], run), key), start))
    ensures roots.0 == roots.1 == Ok(LogRoot(a.h, LogOf(LogsAfter(map[], run), key)))
  {
    hide *;
    var onA := AfterRun(a, run, key, start);
    var onB := AfterRun(b, run, key, start);
    return (onA.0, onB.0), (onA.1, onB.1);
  }

  /** A fresh store, a run of batches, then one lookup and one root. */
  method AfterRun(c: Config, run: seq<Updates>, key: Key, start: U64)
    returns (r: (Result<IndexLog.Log>, Result<Hash>))
    requires c.Valid() && GoodRun(c, map[], run)
    requires NoRepeats(LogOf(LogsAfter(map[], run), key))
    ensures r.0 == Ok(Suffix(LogOf(LogsAfter(map[], run), key), start))
    ensures r.1 == Ok(LogRoot(c.h, LogOf(LogsAfter(map[], run), key)))
  {
    hide GoodRun, LogsAfter, NoRepeats, TreeHash, AllRep, InOrder;
    var s := new IndexStore(c);
    s.Apply(run);
    s.Represents(key);
    RepIsInOrder(c, s.db.State(), key, LogOf(LogsAfter(map[], run), key));
    var found := s.Lookup(key, start);
    var root := s.GetSubRoot(key);
    AnswerIsSuffix(c, LogOf(LogsAfter(map[], run), key), start);
    return (found, root);
  }
}
