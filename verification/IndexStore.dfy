/** IndexStore: the interface of all eight stores over one abstract object, the map from keys
    to logs. The representation invariant ties the records in Pebble to that map in every
    reachable state; each operation is stated on the map alone. */
module IndexStores {
  import opened ByteStrings
  import opened Merkle
  import opened Codec
  import opened IndexLog
  import opened Pebble
  import opened Layout
  import opened Cursor
  import opened Writer
  import opened Latest
  import opened Scan
  import opened Backward
  import Sealing
  import NoSeal
  import LogEngine
  import FlatEngine

  type Logs = map<Key, IndexLog.Log>
  type Updates = map<Key, IndexLog.Log>

  /** The log of a key, or the new indices of a key; absent means empty. */
  function LogOf(logs: Logs, key: Key): Log {
    if key in logs then logs[key] else []
  }

  /** The abstract effect of a batch: each log is extended by the indices given for its key. */
  function Extend(logs: Logs, updates: Updates): (r: Logs)
    ensures forall key: Key :: LogOf(r, key) == LogOf(logs, key) + LogOf(updates, key)
  {
    map key | key in logs.Keys + updates.Keys :: LogOf(logs, key) + LogOf(updates, key)
  }

  /** The logs after a run of batches. */
  function LogsAfter(logs: Logs, run: seq<Updates>): Logs {
    if run == [] then logs else Extend(LogsAfter(logs, run[..|run| - 1]), run[|run| - 1])
  }

  /** A batch as WriteBatch is meant to be called: the indices of each key are sorted, do not
      fall into a chunk below the last one of its log, and fit the 64-bit counters. The log
      store has one index per chunk, so there they must continue the log in order. The flat
      store needs no order. */
  ghost predicate GoodBatch(c: Config, logs: Logs, updates: Updates) {
    forall key: Key :: key in updates ==>
      && |LogOf(logs, key) + updates[key]| < TWO_64
      && (c.kind.FlatStore?
          || (NonDecreasing(updates[key]) && ChunkOrdered(c.cs, LogOf(logs, key) + updates[key])))
  }

  ghost predicate GoodRun(c: Config, logs: Logs, run: seq<Updates>) {
    forall i :: 0 <= i < |run| ==> GoodBatch(c, LogsAfter(logs, run[..i]), run[i])
  }

  /** What a run does to each log, batch by batch. */
  lemma LogsAfterSteps(logs: Logs, run: seq<Updates>, updates: Updates, key: Key)
    ensures LogOf(LogsAfter(logs, []), key) == LogOf(logs, key)
    ensures LogOf(LogsAfter(logs, run + [updates]), key) ==
            LogOf(LogsAfter(logs, run), key) + (if key in updates then updates[key] else [])
  {
    assert (run + [updates])[..|run|] == run;
  }

  /** Good batches, one after another, are a good run. */
  lemma GoodRunSteps(c: Config, logs: Logs, run: seq<Updates>, updates: Updates)
    ensures GoodRun(c, logs, [])
    ensures GoodRun(c, logs, run + [updates]) <==> GoodRun(c, logs, run) && GoodBatch(c, LogsAfter(logs, run), updates)
  {
    hide GoodBatch;
    var all := run + [updates];
    assert all[..|run|] == run;
    assert forall i :: 0 <= i < |run| ==> all[..i] == run[..i] && all[i] == run[i];
    assert all[|run|] == updates;
  }

  /** How many batches a writer of some pace has been given before `gets` reads. */
  function Scheduled(pace: seq<nat>, gets: nat): nat {
    if gets == 0 then 0
    else Scheduled(pace, gets - 1) + (if gets <= |pace| then pace[gets - 1] else 0)
  }

  /** How many batches of a run of `n` that makes. */
  function Due(pace: seq<nat>, gets: nat, n: nat): (due: nat)
    ensures due <= n
  {
    if Scheduled(pace, gets) <= n then Scheduled(pace, gets) else n
  }

  lemma ScheduledSteps(pace: seq<nat>, gets: nat, n: nat)
    ensures Scheduled(pace, 0) == 0
    ensures Scheduled(pace, gets + 1) == Scheduled(pace, gets) + (if gets < |pace| then pace[gets] else 0)
    ensures Due(pace, 0, n) == 0
    ensures var next := Due(pace, gets, n) + (if gets < |pace| then pace[gets] else 0);
      Due(pace, gets + 1, n) == if next <= n then next else n
  {
  }

  /** The i-th of some states of the store represents the logs after the batches due by then. */
  ghost predicate SawOnSchedule(c: Config, seen: seq<map<Bytes, Bytes>>, logs: Logs, run: seq<Updates>, pace: seq<nat>) {
    forall i :: 0 <= i < |seen| ==> AllRep(c, seen[i], LogsAfter(logs, run[..Due(pace, i + 1, |run|)]), {})
  }

  lemma SawNothing(c: Config, logs: Logs, run: seq<Updates>, pace: seq<nat>)
    ensures SawOnSchedule(c, [], logs, run, pace)
  {
  }

  lemma SawOneMore(c: Config, seen: seq<map<Bytes, Bytes>>, m: map<Bytes, Bytes>, logs: Logs, run: seq<Updates>, pace: seq<nat>)
    requires SawOnSchedule(c, seen, logs, run, pace)
    requires AllRep(c, m, LogsAfter(logs, run[..Due(pace, |seen| + 1, |run|)]), {})
    ensures SawOnSchedule(c, seen + [m], logs, run, pace)
  {
    hide AllRep, LogsAfter, Due;
  }

  /** Key by key. */
  lemma SawInFigures(c: Config, seen: seq<map<Bytes, Bytes>>, logs: Logs, run: seq<Updates>, pace: seq<nat>, i: nat, key: Key)
    requires SawOnSchedule(c, seen, logs, run, pace) && i < |seen|
    ensures Rep(c, seen[i], key, LogOf(LogsAfter(logs, run[..Due(pace, i + 1, |run|)]), key))
  {
    hide Rep, LogsAfter, Due, LogOf;
  }

  /** The counters of every log have 64 bits. */
  ghost predicate Fits(logs: Logs, updates: Updates) {
    forall key: Key :: key in updates ==> |LogOf(logs, key) + updates[key]| < TWO_64
  }

  /** What the stores rely on without checking it: the chunks of a key never go back. Order
      within a batch is checked, except by the log store, order across batches is not. */
  ghost predicate InOrder(c: Config, log: Log) {
    c.kind.FlatStore? || ChunkOrdered(c.cs, log)
  }

  /** The keys that a batch takes back to a lower chunk. */
  ghost function Disordered(c: Config, logs: Logs, updates: Updates): set<Key> {
    set key | key in updates && !InOrder(c, LogOf(logs, key) + updates[key])
  }

  /** The chunked stores refuse a batch that is not sorted within itself. */
  ghost predicate Refused(c: Config, updates: Updates) {
    !c.kind.FlatStore? && !c.kind.LogStore? && exists key: Key :: key in updates && !NonDecreasing(updates[key])
  }

  /** A batch is refused for a pair of neighbours in the wrong order. */
  lemma RefusedInFigures(c: Config, updates: Updates)
    ensures Refused(c, updates) <==>
      && !c.kind.FlatStore? && !c.kind.LogStore?
      && exists key, i :: key in updates && 0 < i < |updates[key]| && updates[key][i] < updates[key][i - 1]
  {
    hide NonDecreasing;
    forall key | key in updates
      ensures NonDecreasing(updates[key]) <==>
        forall i :: 0 < i < |updates[key]| ==> updates[key][i - 1] <= updates[key][i]
    {
      NonDecreasingAdjacent(updates[key]);
    }
  }

  /** What a good batch is, neighbour by neighbour. */
  lemma GoodBatchInFigures(c: Config, logs: Logs, updates: Updates)
    ensures GoodBatch(c, logs, updates) <==> forall key :: key in updates ==>
      var (log, more) := (LogOf(logs, key), updates[key]);
      && |log| + |more| < TWO_64
      && (c.kind.FlatStore?
          || ((forall i :: 0 < i < |more| ==> more[i - 1] <= more[i])
              && forall i :: 0 < i < |log + more| ==> (log + more)[i - 1] / c.cs <= (log + more)[i] / c.cs))
  {
    hide NonDecreasing, ChunkOrdered, LogOf;
    forall key | key in updates
      ensures NonDecreasing(updates[key]) <==>
        forall i :: 0 < i < |updates[key]| ==> updates[key][i - 1] <= updates[key][i]
      ensures ChunkOrdered(c.cs, LogOf(logs, key) + updates[key]) <==>
        var all := LogOf(logs, key) + updates[key];
        forall i :: 0 < i < |all| ==> all[i - 1] / c.cs <= all[i] / c.cs
    {
      NonDecreasingAdjacent(updates[key]);
      ChunkOrderedAdjacent(c.cs, LogOf(logs, key) + updates[key]);
    }
  }

  lemma ExtendsEach(logs: Logs, updates: Updates)
    ensures forall key ::
      LogOf(Extend(logs, updates), key) == LogOf(logs, key) + (if key in updates then updates[key] else [])
  {
    hide Extend;
  }

  /** A key is lost for a pair of neighbours whose chunks are in the wrong order. */
  lemma DisorderedInFigures(c: Config, logs: Logs, updates: Updates, key: Key)
    ensures key in Disordered(c, logs, updates) <==>
      && key in updates && !c.kind.FlatStore?
      && var log := LogOf(logs, key) + updates[key];
         exists i :: 0 < i < |log| && log[i] / c.cs < log[i - 1] / c.cs
  {
    if key in updates {
      ChunkOrderedAdjacent(c.cs, LogOf(logs, key) + updates[key]);
    }
    hide ChunkOrdered, LogOf;
  }

  lemma GoodBatchIsAccepted(c: Config, logs: Logs, updates: Updates)
    requires GoodBatch(c, logs, updates)
    ensures Fits(logs, updates) && !Refused(c, updates) && Disordered(c, logs, updates) == {}
  {
  }

  /** Every key is represented, except those that were written out of order. */
  ghost predicate AllRep(c: Config, m: map<Bytes, Bytes>, logs: Logs, disordered: set<Key>) {
    forall key: Key :: key !in disordered ==> Rep(c, m, key, LogOf(logs, key))
  }

  /** Writing under the prefix of one key leaves all others represented. */
  lemma AllRepAfterKey(c: Config, m: map<Bytes, Bytes>, m': map<Bytes, Bytes>, logs: Logs, lost: set<Key>,
                       key: Key, log: Log, lost': set<Key>)
    requires AllRep(c, m, logs, lost) && SameOutside(Prefix(c.kind, key), m, m')
    requires lost <= lost' && (key !in lost' ==> Rep(c, m', key, log))
    ensures AllRep(c, m', logs[key := log], lost')
  {
    hide Rep, HasPrefix, Prefix;
    var logs' := logs[key := log];
    forall k: Key | k !in lost'
      ensures Rep(c, m', k, LogOf(logs', k))
    {
      if k != key {
        OtherKeyUntouched(c, m, m', key, k, LogOf(logs, k));
      }
    }
  }

  lemma OtherKeyUntouched(c: Config, m: map<Bytes, Bytes>, m': map<Bytes, Bytes>, key: Key, k: Key, log: IndexLog.Log)
    requires SameOutside(Prefix(c.kind, key), m, m') && k != key
    requires Rep(c, m, k, log)
    ensures Rep(c, m', k, log)
  {
    hide Rep, HasPrefix, Prefix;
    forall b: Bytes | HasPrefix(b, Prefix(c.kind, k))
      ensures !HasPrefix(b, Prefix(c.kind, key))
    {
      if HasPrefix(b, Prefix(c.kind, key)) {
        PrefixesAreDisjoint(c.kind, k, key, b);
      }
    }
    RepFrame(c, m, m', k, log);
  }

  /** What Lookup answers, by kind of store, on any chunk-ordered log. */
  function Answer(c: Config, log: Log, start: U64): Result<Log> {
    match c.kind
    case FlatStore => Ok(Suffix(log, start))
    case ChunkStore => Ok(Suffix(log, start))
    case SealingChunkStore => Ok(Suffix(log, start))
    case LogStore => Ok(LogEngine.LogAnswer(log, start))
    case _ => ScanAnswer(c.cs, log, start)
  }

  /** Without repeated indices every store answers with the suffix of the log. */
  lemma AnswerIsSuffix(c: Config, log: IndexLog.Log, start: U64)
    requires c.Valid() && InOrder(c, log) && NoRepeats(log)
    ensures Answer(c, log, start) == Ok(Suffix(log, start))
  {
    if !c.kind.FlatStore? {
      ScanIsExact(c.cs, log, start);
    }
    if c.kind.LogStore? {
      ChunkOrderOfOne(log);
      IncreasingIffNoRepeats(log);
      DistinctIsExactIff(log);
    }
    hide ScanAnswer, Below, Distinct, NoRepeats, ChunkOrdered;
  }

  /** The same entry by entry, and with repeated indices for the stores that bear them. */
  lemma AnswerByElements(c: Config, log: IndexLog.Log, start: U64)
    requires c.Valid() && InOrder(c, log)
    requires NoRepeats(log) || c.kind.FlatStore? || c.kind.ChunkStore? || c.kind.SealingChunkStore?
    ensures var r := Answer(c, log, start);
      && r.Ok? && |r.value| == (if start >= |log| then 0 else |log| - start)
      && forall i :: 0 <= i < |r.value| ==> r.value[i] == log[start + i]
  {
    hide Suffix, ScanAnswer, Distinct, ChunkOrdered, NoRepeats;
    if NoRepeats(log) {
      AnswerIsSuffix(c, log, start);
    }
    SuffixElements(log, start);
  }

  lemma RepIsInOrder(c: Config, m: map<Bytes, Bytes>, key: Key, log: IndexLog.Log)
    requires Rep(c, m, key, log)
    ensures InOrder(c, log)
  {
  }

  // ---------------------------------------------------------------- sorted keys

  ghost predicate StrictlySorted(keys: seq<Key>) {
    forall i, j :: 0 <= i < j < |keys| ==> Less(keys[i], keys[j])
  }

  /** sortedKeys: the keys of the batch in lexicographic order, whatever order they come in. */
  method SortedKeys(updates: Updates) returns (keys: seq<Key>)
    ensures StrictlySorted(keys)
    ensures forall k: Key :: k in keys <==> k in updates
    ensures forall i, j :: 0 <= i < j < |keys| ==> keys[i] != keys[j]
  {
    keys := [];
    var rest := updates.Keys;
    while rest != {}
      invariant StrictlySorted(keys) && rest <= updates.Keys
      invariant forall k: Key :: k in updates.Keys <==> k in keys || k in rest
      invariant forall k: Key :: k in keys ==> k !in rest
      decreases |rest|
    {
      var k :| k in rest;
      keys := InsertKey(keys, k);
      rest := rest - {k};
    }
    forall i, j | 0 <= i < j < |keys| ensures keys[i] != keys[j] {
      LessIrreflexive(keys[i]);
    }
  }

  method InsertKey(keys: seq<Key>, k: Key) returns (r: seq<Key>)
    requires StrictlySorted(keys) && k !in keys
    ensures StrictlySorted(r)
    ensures forall x: Key :: x in r <==> x in keys || x == k
  {
    var i := 0;
    while i < |keys| && Less(keys[i], k)
      invariant 0 <= i <= |keys|
      invariant forall j :: 0 <= j < i ==> Less(keys[j], k)
    {
      i := i + 1;
    }
    forall j | i <= j < |keys| ensures Less(k, keys[j]) {
      LessTotal(keys[i], k);
      if i < j { LessTransitive(k, keys[i], keys[j]); }
    }
    r := keys[..i] + [k] + keys[i..];
  }

  // ---------------------------------------------------------------- the store

  class IndexStore {
    const c: Config
    const db: DB
    ghost var logs: Logs
    ghost var disordered: set<Key>  // the keys that were written out of order

    ghost predicate Valid()
      reads this, db
    {
      c.Valid() && db.Valid() && AllRep(c, db.State(), logs, disordered)
    }

    /** No key was written out of order. */
    ghost predicate Sound()
      reads this, db
    {
      Valid() && disordered == {}
    }

    ghost function Log(key: Key): Log
      reads this
    {
      LogOf(logs, key)
    }

    constructor (c: Config)
      requires c.Valid()
      ensures Sound() && this.c == c && logs == map[] && fresh(db)
      ensures forall key :: Log(key) == []
    {
      this.c := c;
      logs, disordered := map[], {};
      db := new DB();
      new;
      forall key: Key ensures Rep(c, map[], key, []) {
        RepOfEmpty(c, key);
      }
    }

    /** WriteBatch extends every log by its new indices, atomically; a batch that is not
        sorted within itself is refused and leaves no trace. A key that the batch takes back
        to a lower chunk is lost, and no other: no chunks can give its log back any more, by
        Backward.UnwindsIffOrdered. */
    method WriteBatch(updates: Updates) returns (r: Result<()>)
      requires Valid() && Fits(logs, updates) && updates.Keys !! disordered
      modifies this, db
      ensures Valid()
      ensures r.Ok? <==> !Refused(c, updates)
      ensures r.Err? <==>
        && !c.kind.FlatStore? && !c.kind.LogStore?
        && exists key, i :: key in updates && 0 < i < |updates[key]| && updates[key][i] < updates[key][i - 1]
      ensures r.Ok? ==> logs == Extend(old(logs), updates)
      ensures r.Ok? ==> forall key ::
        Log(key) == old(Log(key)) + (if key in updates then updates[key] else [])
      ensures r.Ok? ==> disordered == old(disordered) + Disordered(c, old(logs), updates)
      ensures r.Err? ==> r.error == UnsortedIndices
      ensures r.Err? ==> logs == old(logs) && disordered == old(disordered) && db.State() == old(db.State())
    {
      hide Refused, Extend, Disordered, LogOf, AllRep, Fits, Sorted;
      RefusedInFigures(c, updates);
      ExtendsEach(logs, updates);
      r := WriteUpdates(updates);
    }

    method WriteUpdates(updates: Updates) returns (r: Result<()>)
      requires Valid() && Fits(logs, updates) && updates.Keys !! disordered
      modifies this, db
      ensures Valid()
      ensures r.Ok? <==> !Refused(c, updates)
      ensures r.Ok? ==> logs == Extend(old(logs), updates)
      ensures r.Ok? ==> disordered == old(disordered) + Disordered(c, old(logs), updates)
      ensures r.Err? ==> r.error == UnsortedIndices
      ensures r.Err? ==> logs == old(logs) && disordered == old(disordered) && db.State() == old(db.State())
    {
      hide Rep, Refused, Contents, AllRep, Extend, Disordered, Fits, NonDecreasing, Sorted, Overlay, HasPrefix, LogOf, InOrder;
      var batch := new Batch();
      if c.kind.FlatStore? {
        r := CollectFlat(updates, batch);
      } else if |updates| == 0 {
        ExtendByNothing(c, logs, updates);
        logs := Extend(logs, updates);
        return Ok(());
      } else {
        r := Collect(updates, batch);
      }
      if r.Ok? {
        Publish(updates, batch);
      }
    }

    /** The commit makes the logs of the batch visible at once. */
    method Publish(updates: Updates, batch: Batch)
      requires Valid()
      requires AllRep(c, Overlay(db.State(), batch), Extend(logs, updates), disordered + Disordered(c, logs, updates))
      modifies this, db
      ensures Valid() && logs == Extend(old(logs), updates)
      ensures disordered == old(disordered) + Disordered(c, old(logs), updates)
    {
      hide Rep, Contents, AllRep, Extend, Disordered, Sorted;
      db.Commit(batch);
      disordered := disordered + Disordered(c, logs, updates);
      logs := Extend(logs, updates);
    }

    /** A batch as it is meant to be is never refused, and loses nothing. */
    method WriteGoodBatch(updates: Updates)
      requires Sound() && GoodBatch(c, logs, updates)
      modifies this, db
      ensures Sound() && logs == Extend(old(logs), updates)
    {
      hide GoodBatch, Refused, Extend, Disordered, Fits, AllRep;
      GoodBatchIsAccepted(c, logs, updates);
      var r := WriteBatch(updates);
    }

    /** The loop over the keys of a batch, in sorted order: seven of the eight stores. */
    method Collect(updates: Updates, batch: Batch) returns (r: Result<()>)
      requires Valid() && Fits(logs, updates) && updates.Keys !! disordered && !c.kind.FlatStore?
      requires batch.ops == []
      modifies batch
      ensures r.Ok? <==> !Refused(c, updates)
      ensures r.Err? ==> r.error == UnsortedIndices
      ensures r.Ok? ==>
        AllRep(c, Overlay(db.State(), batch), Extend(logs, updates), disordered + Disordered(c, logs, updates))
    {
      hide Rep, Snapshot, IsLatestRecord, NonDecreasing, ChunkOrdered, Contents, AllRep, Partial, Lost, LogOf, Extend,
        InOrder, Disordered, Fits, Overlay, SameOutside;
      var iter := db.NewIter(None);
      var keys := SortedKeys(updates);
      ghost var (m, cur, lost) := (db.State(), logs, disordered);
      EmptyOverlay(m, batch);
      PartialAtStart(c, logs, updates, disordered);
      assert keys[..0] == [];
      var i := 0;
      while i < |keys|
        invariant 0 <= i <= |keys|
        invariant AllRep(c, Overlay(m, batch), cur, lost)
        invariant Partial(logs, updates, keys[..i], cur) && Lost(c, logs, updates, disordered, keys[..i], lost)
        invariant c.kind.LogStore? || forall j :: 0 <= j < i ==> NonDecreasing(updates[keys[j]])
      {
        var key := keys[i];
        var newIndices := updates[key];
        PartialNext(logs, updates, keys, i, cur);
        LostNext(c, logs, updates, disordered, keys, i, lost);
        KeyReady(c, Overlay(m, batch), logs, updates, cur, lost, key);
        if |newIndices| == 0 {
          NonDecreasingEmpty();
          i := i + 1;
          continue;
        }
        if !c.kind.LogStore? {
          var sorted := IsSorted(newIndices);
          if !sorted {
            return Err(UnsortedIndices);
          }
        }
        ghost var log := LogOf(logs, key);
        ghost var before := Overlay(m, batch);
        r := WriteKey(key, newIndices, iter, batch, log);
        ghost var lost' := if InOrder(c, log + newIndices) then lost else lost + {key};
        AllRepAfterKey(c, before, Overlay(m, batch), cur, lost, key, log + newIndices, lost');
        cur, lost := cur[key := log + newIndices], lost';
        i := i + 1;
      }
      assert keys[..i] == keys;
      if !c.kind.LogStore? {
        SortedIsNotRefused(c, updates, keys);
      }
      PartialIsExtend(c, Overlay(m, batch), logs, updates, disordered, keys, cur, lost);
      return Ok(());
    }

    /** One key of a batch: find its latest record, and continue from there. */
    method WriteKey(key: Key, newIndices: IndexLog.Log, iter: Iterator, batch: Batch, ghost log: IndexLog.Log)
      returns (r: Result<()>)
      requires Valid() && !c.kind.FlatStore? && newIndices != [] && |log + newIndices| < TWO_64
      requires key !in disordered && log == LogOf(logs, key)
      requires iter.snapshot == db.records
      requires Rep(c, Overlay(db.State(), batch), key, log)
      modifies batch, iter
      ensures r.Ok?
      ensures InOrder(c, log + newIndices) ==> Rep(c, Overlay(db.State(), batch), key, log + newIndices)
      ensures SameOutside(Prefix(c.kind, key), old(Overlay(db.State(), batch)), Overlay(db.State(), batch))
    {
      hide Rep, Snapshot, IsLatestRecord, ChunkOrdered, Contents, Overlay, SameOutside;
      ghost var m := db.State();
      NewSnapshot(c, db, key, log);
      var prev := FindLatest(c, key, iter, log);
      if c.kind.NoSeal() {
        r := NoSeal.WriteKey(c, key, newIndices, prev, batch, m, log);
      } else if c.kind.LogStore? {
        r := LogEngine.WriteKey(c, key, newIndices, prev, batch, m, log);
      } else {
        r := Sealing.WriteKey(c, key, newIndices, prev, batch, m, log);
      }
    }

    /** The loop of the flat store, in whatever order the map yields its keys. */
    method CollectFlat(updates: Updates, batch: Batch) returns (r: Result<()>)
      requires Valid() && Fits(logs, updates) && updates.Keys !! disordered && c.kind.FlatStore?
      requires batch.ops == []
      modifies batch
      ensures r.Ok?
      ensures AllRep(c, Overlay(db.State(), batch), Extend(logs, updates), disordered)
      ensures Disordered(c, logs, updates) == {} && !Refused(c, updates)
    {
      hide Rep, NonDecreasing, ChunkOrdered, Contents, AllRep, Partial, Lost, LogOf, Extend, Fits, Overlay, SameOutside;
      ghost var (m, cur) := (db.State(), logs);
      ghost var done: seq<Key> := [];
      EmptyOverlay(m, batch);
      PartialAtStart(c, logs, updates, disordered);
      var rest := updates.Keys;
      while rest != {}
        invariant rest <= updates.Keys
        invariant forall k: Key :: k in updates.Keys <==> k in done || k in rest
        invariant forall k: Key :: k in done ==> k !in rest
        invariant AllRep(c, Overlay(m, batch), cur, disordered)
        invariant Partial(logs, updates, done, cur)
        decreases |rest|
      {
        var key :| key in rest;
        ghost var before := Overlay(m, batch);
        ghost var log := LogOf(logs, key);
        PartialSnoc(logs, updates, done, cur, key);
        KeyReady(c, m, logs, updates, logs, disordered, key);
        r := FlatEngine.WriteKey(c, db, key, updates[key], batch, log);
        AllRepAfterKey(c, before, Overlay(m, batch), cur, disordered, key, log + updates[key], disordered);
        cur := cur[key := log + updates[key]];
        rest, done := rest - {key}, done + [key];
      }
      FlatLosesNothing(c, logs, updates, disordered, done);
      PartialIsExtend(c, Overlay(m, batch), logs, updates, disordered, done, cur, disordered);
      return Ok(());
    }

    /** Lookup answers from the log of the key alone; without repeated indices it is the
        promised suffix whatever the kind of store. */
    method Lookup(key: Key, start: U64) returns (r: Result<IndexLog.Log>)
      requires Valid() && key !in disordered
      ensures r == Answer(c, Log(key), start)
      ensures
        (|| (forall i, j :: 0 <= i < j < |Log(key)| ==> Log(key)[i] != Log(key)[j])
         || c.kind.FlatStore? || c.kind.ChunkStore? || c.kind.SealingChunkStore?) ==>
        && r.Ok? && |r.value| == (if start >= |Log(key)| then 0 else |Log(key)| - start)
        && forall i :: 0 <= i < |r.value| ==> r.value[i] == Log(key)[start + i]
    {
      hide Rep, Answer, InOrder, LogOf;
      ghost var log := Log(key);
      RepIsInOrder(c, db.State(), key, log);
      if NoRepeats(log) || c.kind.FlatStore? || c.kind.ChunkStore? || c.kind.SealingChunkStore? {
        AnswerByElements(c, log, start);
      }
      r := LookupByKind(key, start);
    }

    /** Each kind of store has its own lookup. */
    method LookupByKind(key: Key, start: U64) returns (r: Result<IndexLog.Log>)
      requires Valid() && key !in disordered
      ensures r == Answer(c, Log(key), start)
    {
      hide Rep;
      ghost var log := Log(key);
      match c.kind {
        case FlatStore => r := FlatEngine.Lookup(c, db, key, start, log);
        case LogStore => r := LogEngine.Lookup(c, db, key, start, log);
        case ChunkStore => r := LookupBackward(c, db, key, start, log);
        case ChunkScanStore => r := LookupForward(c, db, key, start, log);
        case PrefixChunkScanStore => r := LookupPrefix(c, db, key, start, log);
        case InvertedPrefixChunkScanStore => r := LookupInverted(c, db, key, start, log);
        case SealingChunkStore => r := Sealing.LookupChain(c, db, key, start, log);
        case SealingChunkScanStore => r := Sealing.LookupScan(c, db, key, start, log);
      }
    }

    /** GetSubRoot is the RFC 6962 tree hash over the whole log, for every kind of store. */
    method GetSubRoot(key: Key) returns (r: Result<Hash>)
      requires Valid() && key !in disordered
      ensures r == Ok(LogRoot(c.h, Log(key)))
      ensures var log := Log(key);
        r == Ok(TreeHash(c.h, seq(|log|, i requires 0 <= i < |log| => BE64(log[i]))))
    {
      hide Rep, TreeHash;
      ghost var log := Log(key);
      if c.kind.FlatStore? {
        r := FlatEngine.GetSubRoot(c, db, key, log);
      } else if c.kind.LogStore? {
        r := LogEngine.GetSubRoot(c, db, key, log);
      } else if c.kind.NoSeal() {
        r := NoSeal.GetSubRoot(c, db, key, log);
      } else {
        r := Sealing.GetSubRoot(c, db, key, log);
      }
    }

    /** What a lookup may rely on. */
    lemma Represents(key: Key)
      requires Sound()
      ensures Log(key) == LogOf(logs, key)
      ensures db.Valid() && Rep(c, db.State(), key, LogOf(logs, key))
    {
      hide Rep;
    }

    lemma SoundState()
      requires Sound()
      ensures AllRep(c, db.State(), logs, {})
    {
      hide Rep, AllRep;
    }

    /** A run of batches, one after another. */
    method Apply(run: seq<Updates>)
      requires Sound() && GoodRun(c, logs, run)
      modifies this, db
      ensures Sound() && logs == LogsAfter(old(logs), run)
    {
      NoRun(logs, run);
      var to := Commit(run, 0, |run|, logs);
      assert run[..to] == run;
    }

    /** SealingChunkStore.Lookup beside a writer: before its i-th read of the live store, the
        writer commits `pace[i]` further batches of a run. The answer is the suffix of the log
        as it was when the lookup took its snapshot. It takes one read for each chunk of the
        shortest suffix, except the latest, which the snapshot has; `seen` are the states of the
        store at those reads. */
    method LookupBesideWriter(key: Key, start: U64, run: seq<Updates>, pace: seq<nat>)
      returns (r: Result<IndexLog.Log>, committed: nat, gets: nat, ghost x: U64, ghost seen: seq<map<Bytes, Bytes>>)
      requires Sound() && c.kind.SealingChunkStore? && GoodRun(c, logs, run)
      modifies this, db
      ensures r == Ok(Suffix(old(Log(key)), start))
      ensures committed <= |run| && Sound() && logs == LogsAfter(old(logs), run[..committed])
      ensures committed == Due(pace, gets, |run|)
      ensures |seen| == gets && SawOnSchedule(c, seen, old(logs), run, pace)
      ensures old(Log(key)) == [] ==> gets == 0
      ensures old(Log(key)) != [] ==>
        && ShortestSuffix(c, old(Log(key)), start, x)
        && gets + 1 == |ChunkNumbers(c.cs, old(Log(key)), Below(c.cs, old(Log(key)), x))|
    {
      hide *;
      ghost var (log, logs0) := (LogOf(logs, key), logs);
      Represents(key);
      NoRun(logs, run);
      ScheduledSteps(pace, 0, |run|);
      SawNothing(c, logs, run, pace);
      committed, gets, seen := 0, 0, [];
      var begin;
      begin, x := Sealing.BeginWalk(c, db, key, start, log);
      if begin.Err? {
        return begin.PropagateFailure(), committed, gets, x, seen;
      }
      if begin.value.None? {
        NothingToRead(start);
        return Ok([]), committed, gets, x, seen;
      }
      var w;
      w, committed, gets, x, seen := WalkBesideWriter(key, start, run, pace, begin.value.value, logs0, x);
      Sealing.ReadsOfWalk(c, log, start, w, x);
      r := Sealing.EndWalk(c, start, w, log, x);
    }

    /** The loop of that lookup. */
    method WalkBesideWriter(key: Key, start: U64, run: seq<Updates>, pace: seq<nat>, begin: Sealing.Walk,
                            ghost logs0: Logs, ghost x0: U64)
      returns (w: Sealing.Walk, committed: nat, gets: nat, ghost x: U64, ghost seen: seq<map<Bytes, Bytes>>)
      requires Sound() && GoodRun(c, logs0, run) && logs == LogsAfter(logs0, run[..0])
      requires Sealing.Walking(c, LogOf(logs0, key), start, begin, x0)
      modifies this, db
      ensures committed <= |run| && Sound() && logs == LogsAfter(logs0, run[..committed])
      ensures committed == Due(pace, gets, |run|)
      ensures Sealing.Walking(c, LogOf(logs0, key), start, w, x) && w.cum - w.len <= start
      ensures |w.chunks| == |begin.chunks| + gets
      ensures |seen| == gets && SawOnSchedule(c, seen, logs0, run, pace)
    {
      hide *;
      w, x, committed, gets, seen := begin, x0, 0, 0, [];
      ScheduledSteps(pace, 0, |run|);
      SawNothing(c, logs0, run, pace);
      while w.cum - w.len > start
        invariant committed <= |run| && Sound() && logs == LogsAfter(logs0, run[..committed])
        invariant committed == Due(pace, gets, |run|)
        invariant Sealing.Walking(c, LogOf(logs0, key), start, w, x)
        invariant |w.chunks| == |begin.chunks| + gets
        invariant |seen| == gets && SawOnSchedule(c, seen, logs0, run, pace)
        decreases w.cum - w.len
      {
        ScheduledSteps(pace, gets, |run|);
        var step: Result<Sealing.Walk>;
        ghost var live;
        committed, step, x, live := WriteThenRead(run, committed, if gets < |pace| then pace[gets] else 0, key, start, w, logs0, x);
        w := step.value;
        SawOneMore(c, seen, live, logs0, run, pace);
        seen := seen + [live];
        gets := gets + 1;
      }
    }

    /** The writer commits some batches, then the lookup reads one chunk. */
    method WriteThenRead(run: seq<Updates>, from: nat, n: nat, key: Key, start: U64, w: Sealing.Walk,
                         ghost logs0: Logs, ghost x: U64)
      returns (to: nat, step: Result<Sealing.Walk>, ghost q: U64, ghost seen: map<Bytes, Bytes>)
      requires Sound() && from <= |run| && GoodRun(c, logs0, run)
      requires logs == LogsAfter(logs0, run[..from])
      requires Sealing.Walking(c, LogOf(logs0, key), start, w, x) && start < w.cum - w.len
      modifies this, db
      ensures to <= |run| && Sound() && logs == LogsAfter(logs0, run[..to])
      ensures step.Ok? && Sealing.Walking(c, LogOf(logs0, key), start, step.value, q)
      ensures step.value.cum - step.value.len < w.cum - w.len
      ensures to == if from + n <= |run| then from + n else |run|
      ensures |step.value.chunks| == |w.chunks| + 1
      ensures AllRep(c, seen, LogsAfter(logs0, run[..to]), {})
    {
      hide *;
      to := Commit(run, from, n, logs0);
      ghost var more := LaterRep(logs0, run[..to], key);
      SoundState();
      step, q, seen := Sealing.StepWalk(c, db, key, start, w, LogOf(logs0, key), more, x);
    }

    /** After a run the store represents the old log of a key with something appended. */
    lemma LaterRep(logs0: Logs, run: seq<Updates>, key: Key) returns (more: IndexLog.Log)
      requires Sound() && logs == LogsAfter(logs0, run)
      ensures db.Valid() && Rep(c, db.State(), key, LogOf(logs0, key) + more)
    {
      hide Rep, LogsAfter;
      LogsOnlyGrow(logs0, run, key);
      more := LogOf(logs, key)[|LogOf(logs0, key)|..];
      assert LogOf(logs0, key) + more == LogOf(logs, key);
    }

    /** Commits up to `n` further batches of a run. */
    method Commit(run: seq<Updates>, from: nat, n: nat, ghost logs0: Logs) returns (to: nat)
      requires Sound() && from <= |run| && GoodRun(c, logs0, run)
      requires logs == LogsAfter(logs0, run[..from])
      modifies this, db
      ensures to <= |run| && Sound() && logs == LogsAfter(logs0, run[..to])
      ensures to == if from + n <= |run| then from + n else |run|
    {
      hide *;
      to := from;
      var left := n;
      while left > 0 && to < |run|
        invariant from <= to <= |run| && to + left == from + n
        invariant Sound() && logs == LogsAfter(logs0, run[..to])
      {
        GoodRunStep(c, logs0, run, to);
        WriteGoodBatch(run[to]);
        to, left := to + 1, left - 1;
      }
    }
  }

  /** The constructors of the stores: the chunked ones check the chunk size. */
  method NewStore(kind: Kind, h: Hasher, chunkSize: int) returns (r: Result<IndexStore>)
    ensures r.Ok? <==> kind.FlatStore? || kind.LogStore? || 1 <= chunkSize <= 65536
    ensures r.Ok? ==> fresh(r.value) && fresh(r.value.db) && r.value.Sound() && r.value.logs == map[]
    ensures r.Ok? ==> r.value.c.kind == kind && r.value.c.h == h
    ensures r.Ok? && !kind.FlatStore? && !kind.LogStore? ==> r.value.c.cs == chunkSize
    ensures r.Err? ==> r.error == BadChunkSize
  {
    var store: IndexStore;
    if kind.FlatStore? || kind.LogStore? {
      store := new IndexStore(Config(kind, h, 1));
      return Ok(store);
    }
    if chunkSize <= 0 || chunkSize > 65536 {
      return Err(BadChunkSize);
    }
    store := new IndexStore(Config(kind, h, chunkSize));
    return Ok(store);
  }

  // ---------------------------------------------------------------- lemmas on logs

  /** The batch was written for the keys of `done`, and for no others. */
  ghost predicate Partial(logs: Logs, updates: Updates, done: seq<Key>, cur: Logs) {
    forall k: Key :: LogOf(cur, k) == LogOf(logs, k) + (if k in done then LogOf(updates, k) else [])
  }

  lemma PartialNext(logs: Logs, updates: Updates, keys: seq<Key>, i: nat, cur: Logs)
    requires i < |keys| && Partial(logs, updates, keys[..i], cur)
    requires forall k: Key :: k in keys <==> k in updates
    requires forall a, b :: 0 <= a < b < |keys| ==> keys[a] != keys[b]
    ensures keys[i] in updates && LogOf(cur, keys[i]) == LogOf(logs, keys[i])
    ensures Partial(logs, updates, keys[..i + 1], cur[keys[i] := LogOf(logs, keys[i]) + updates[keys[i]]])
    ensures updates[keys[i]] == [] ==> Partial(logs, updates, keys[..i + 1], cur)
  {
    var key := keys[i];
    var cur' := cur[key := LogOf(logs, key) + updates[key]];
    assert key in keys;
    assert key !in keys[..i];
    forall k: Key
      ensures LogOf(cur', k) == LogOf(logs, k) + (if k in keys[..i + 1] then LogOf(updates, k) else [])
    {
      TakenOneMore(keys, i, k);
      assert LogOf(cur, k) == LogOf(logs, k) + (if k in keys[..i] then LogOf(updates, k) else []);
    }
    if updates[key] == [] {
      forall k: Key
        ensures LogOf(cur, k) == LogOf(logs, k) + (if k in keys[..i + 1] then LogOf(updates, k) else [])
      {
        TakenOneMore(keys, i, k);
        assert LogOf(cur, k) == LogOf(logs, k) + (if k in keys[..i] then LogOf(updates, k) else []);
      }
    }
  }

  lemma TakenOneMore(keys: seq<Key>, i: nat, k: Key)
    requires i < |keys|
    ensures k in keys[..i + 1] <==> k in keys[..i] || k == keys[i]
  {
    assert keys[..i + 1] == keys[..i] + [keys[i]];
  }

  lemma PartialSnoc(logs: Logs, updates: Updates, done: seq<Key>, cur: Logs, key: Key)
    requires Partial(logs, updates, done, cur) && key in updates && key !in done
    ensures LogOf(cur, key) == LogOf(logs, key)
    ensures Partial(logs, updates, done + [key], cur[key := LogOf(logs, key) + updates[key]])
  {
    var cur' := cur[key := LogOf(logs, key) + updates[key]];
    forall k: Key
      ensures LogOf(cur', k) == LogOf(logs, k) + (if k in done + [key] then LogOf(updates, k) else [])
    {
      assert LogOf(cur, k) == LogOf(logs, k) + (if k in done then LogOf(updates, k) else []);
    }
  }

  lemma PartialAtStart(c: Config, logs: Logs, updates: Updates, disordered: set<Key>)
    ensures Partial(logs, updates, [], logs) && Lost(c, logs, updates, disordered, [], disordered)
  {
  }

  /** Of the keys written so far, those taken back to a lower chunk are lost. */
  ghost predicate Lost(c: Config, logs: Logs, updates: Updates, disordered: set<Key>, done: seq<Key>, lost: set<Key>) {
    forall k: Key :: k in lost <==>
      k in disordered || (k in done && !InOrder(c, LogOf(logs, k) + LogOf(updates, k)))
  }

  lemma LostNext(c: Config, logs: Logs, updates: Updates, disordered: set<Key>, keys: seq<Key>, i: nat, lost: set<Key>)
    requires i < |keys| && Lost(c, logs, updates, disordered, keys[..i], lost)
    requires forall k: Key :: k in keys <==> k in updates
    requires forall a, b :: 0 <= a < b < |keys| ==> keys[a] != keys[b]
    requires updates.Keys !! disordered
    ensures keys[i] in updates && keys[i] !in lost
    ensures var inOrder := InOrder(c, LogOf(logs, keys[i]) + updates[keys[i]]);
      Lost(c, logs, updates, disordered, keys[..i + 1], if inOrder then lost else lost + {keys[i]})
  {
    hide InOrder;
    var key := keys[i];
    assert key in keys;
    assert key !in keys[..i];
    forall k: Key ensures k in keys[..i + 1] <==> k in keys[..i] || k == key {
      TakenOneMore(keys, i, k);
    }
  }

  lemma FlatLosesNothing(c: Config, logs: Logs, updates: Updates, disordered: set<Key>, done: seq<Key>)
    requires c.kind.FlatStore?
    ensures Lost(c, logs, updates, disordered, done, disordered) && Disordered(c, logs, updates) == {}
  {
  }

  /** What WriteBatch knows when it comes to a key. */
  lemma KeyReady(c: Config, m: map<Bytes, Bytes>, logs: Logs, updates: Updates, cur: Logs, lost: set<Key>, key: Key)
    requires AllRep(c, m, cur, lost) && Fits(logs, updates) && key in updates && key !in lost
    requires LogOf(cur, key) == LogOf(logs, key)
    ensures Rep(c, m, key, LogOf(logs, key))
    ensures |LogOf(logs, key) + updates[key]| < TWO_64
    ensures updates[key] == [] ==> InOrder(c, LogOf(logs, key) + updates[key])
  {
    hide ChunkOrdered, RecordOk;
    assert Rep(c, m, key, LogOf(cur, key));
    if updates[key] == [] {
      assert LogOf(logs, key) + updates[key] == LogOf(logs, key);
    }
  }

  lemma SortedIsNotRefused(c: Config, updates: Updates, keys: seq<Key>)
    requires forall k: Key :: k in keys <==> k in updates
    requires forall j :: 0 <= j < |keys| ==> NonDecreasing(updates[keys[j]])
    ensures !Refused(c, updates)
  {
    hide NonDecreasing;
    forall k: Key | k in updates ensures NonDecreasing(updates[k]) {
      assert k in keys;
      var j :| 0 <= j < |keys| && keys[j] == k;
    }
  }

  lemma GoodRunStep(c: Config, logs: Logs, run: seq<Updates>, i: nat)
    requires GoodRun(c, logs, run) && i < |run|
    ensures GoodBatch(c, LogsAfter(logs, run[..i]), run[i])
    ensures LogsAfter(logs, run[..i + 1]) == Extend(LogsAfter(logs, run[..i]), run[i])
  {
    hide NonDecreasing;
    assert run[..i + 1][..i] == run[..i];
  }

  lemma NoRun(logs: Logs, run: seq<Updates>)
    ensures LogsAfter(logs, run[..0]) == logs
  {
  }

  lemma PartialIsExtend(c: Config, m: map<Bytes, Bytes>, logs: Logs, updates: Updates, disordered: set<Key>,
                        done: seq<Key>, cur: Logs, lost: set<Key>)
    requires Partial(logs, updates, done, cur) && Lost(c, logs, updates, disordered, done, lost)
    requires AllRep(c, m, cur, lost)
    requires forall k: Key :: k in done <==> k in updates
    ensures AllRep(c, m, Extend(logs, updates), disordered + Disordered(c, logs, updates))
    ensures disordered + Disordered(c, logs, updates) == lost
  {
    hide Rep, InOrder;
    forall key: Key | key !in lost
      ensures Rep(c, m, key, LogOf(Extend(logs, updates), key))
    {
      assert LogOf(cur, key) == LogOf(Extend(logs, updates), key);
    }
  }

  lemma NothingToRead(start: nat)
    ensures Suffix([], start) == []
  {
  }

  lemma EmptyOverlay(m: map<Bytes, Bytes>, batch: Batch)
    requires batch.ops == []
    ensures Overlay(m, batch) == m
  {
  }

  lemma ExtendByNothing(c: Config, logs: Logs, updates: Updates)
    requires updates == map[]
    ensures Extend(logs, updates) == logs && Disordered(c, logs, updates) == {} && !Refused(c, updates)
  {
    forall key: Key | key in logs ensures Extend(logs, updates)[key] == logs[key] {
      assert LogOf(updates, key) == [];
    }
  }

  lemma NonDecreasingEmpty()
    ensures NonDecreasing([])
  {
  }

  /** Runs only append to logs. */
  lemma {:induction false} LogsOnlyGrow(logs: Logs, run: seq<Updates>, key: Key)
    ensures LogOf(logs, key) <= LogOf(LogsAfter(logs, run), key)
  {
    if run != [] {
      LogsOnlyGrow(logs, run[..|run| - 1], key);
    }
  }
}
