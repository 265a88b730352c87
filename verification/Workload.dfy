/** The workload driver: batches of consecutive indices, grouped by an arbitrary choice of
    keys, and the writer loop of the benchmark. */
module Workload {
  import opened ByteStrings
  import opened Codec
  import opened IndexLog
  import opened Layout
  import opened IndexStores
  import opened Equivalence

  datatype Mode = Uniform | Sequential | Zipfian

  /** The indices of [a, b) that were given to a key, in order. */
  function Assigned(keyOf: nat -> Key, key: Key, a: nat, b: nat): (r: IndexLog.Log)
    requires b <= TWO_64
    ensures b >= a ==> |r| <= b - a
  {
    if b <= a then []
    else Assigned(keyOf, key, a, b - 1) + (if keyOf(b - 1) == key then [b - 1] else [])
  }

  lemma {:induction false} AssignedMembers(keyOf: nat -> Key, key: Key, a: nat, b: nat)
    requires b <= TWO_64
    ensures forall x :: x in Assigned(keyOf, key, a, b) <==> a <= x < b && keyOf(x) == key
  {
    if b > a {
      AssignedMembers(keyOf, key, a, b - 1);
    }
  }

  lemma {:induction false} AssignedIsIncreasing(keyOf: nat -> Key, key: Key, a: nat, b: nat)
    requires b <= TWO_64
    ensures Increasing(Assigned(keyOf, key, a, b))
  {
    if b > a {
      AssignedIsIncreasing(keyOf, key, a, b - 1);
      AssignedMembers(keyOf, key, a, b - 1);
      AboveAll(Assigned(keyOf, key, a, b - 1), b - 1);
    }
  }

  lemma AboveAll(log: IndexLog.Log, x: U64)
    requires Increasing(log) && forall y :: y in log ==> y < x
    ensures Increasing(log + [x])
  {
    assert forall i :: 0 <= i < |log| ==> log[i] in log;
  }

  lemma {:induction false} AssignedJoins(keyOf: nat -> Key, key: Key, a: nat, b: nat, d: nat)
    requires a <= b <= d <= TWO_64
    ensures Assigned(keyOf, key, a, b) + Assigned(keyOf, key, b, d) == Assigned(keyOf, key, a, d)
    decreases d
  {
    if d > b {
      AssignedJoins(keyOf, key, a, b, d - 1);
    }
  }

  lemma {:induction false} AssignedAgree(f: nat -> Key, g: nat -> Key, key: Key, a: nat, b: nat)
    requires b <= TWO_64 && forall x :: a <= x < b ==> f(x) == g(x)
    ensures Assigned(f, key, a, b) == Assigned(g, key, a, b)
    decreases b
  {
    if b > a {
      AssignedAgree(f, g, key, a, b - 1);
    }
  }

  /** A positive Go int. */
  type KeyCount = n: int | 1 <= n < 0x8000_0000_0000_0000 witness 1

  /** The generator. The two random streams are arbitrary and are read once per index: Intn
      reduces the first to the number of keys, and Zipf draws come from the second. */
  class Generator {
    const mode: Mode
    const numKeys: KeyCount
    const uniform: nat -> nat
    const zipf: nat -> U64
    const hash: Bytes -> Key
    var position: nat  // how many indices were generated so far

    constructor (mode: Mode, numKeys: KeyCount, uniform: nat -> nat, zipf: nat -> U64, hash: Bytes -> Key)
      ensures this.mode == mode && this.numKeys == numKeys && position == 0
      ensures this.uniform == uniform && this.zipf == zipf && this.hash == hash
    {
      this.mode, this.numKeys := mode, numKeys;
      this.uniform, this.zipf, this.hash := uniform, zipf, hash;
      position := 0;
    }

    /** The key chosen for index `idx` at a position of the streams. */
    function KeyAt(idx: nat, at: nat): Key {
      var keyID: U64 :=
        match mode
        case Uniform => uniform(at) % numKeys
        case Sequential => idx % numKeys
        case Zipfian => zipf(at);
      hash(BE64(keyID))
    }

    /** The choice of keys for a batch that starts at `startIdx`. */
    function Choice(startIdx: nat, at: nat): nat -> Key {
      (idx: nat) => KeyAt(idx, if idx >= startIdx then at + (idx - startIdx) else 0)
    }

    /** Which key a mode chooses. */
    lemma ChoiceByMode(startIdx: nat, at: nat, x: nat)
      requires startIdx <= x
      ensures mode.Uniform? ==> Choice(startIdx, at)(x) == hash(BE64(uniform(at + (x - startIdx)) % numKeys))
      ensures mode.Sequential? ==> Choice(startIdx, at)(x) == hash(BE64(x % numKeys))
      ensures mode.Zipfian? ==> Choice(startIdx, at)(x) == hash(BE64(zipf(at + (x - startIdx))))
    {
      hide BE64;
      assert Choice(startIdx, at)(x) == KeyAt(x, at + (x - startIdx));
    }

    /** NextBatch groups `size` consecutive indices by key; no key gets an empty slice. Each
        index goes to the key that the mode chooses for it, and to no other. */
    method NextBatch(size: nat, startIdx: nat) returns (batch: Updates)
      requires startIdx + size <= TWO_64
      modifies this
      ensures position == old(position) + size
      ensures forall key: Key ::
        LogOf(batch, key) == Assigned(Choice(startIdx, old(position)), key, startIdx, startIdx + size)
      ensures forall key: Key :: key in batch ==> batch[key] != []
      ensures forall key: Key :: Increasing(LogOf(batch, key))
      ensures forall key: Key, x: U64 :: x in LogOf(batch, key) ==> startIdx <= x < startIdx + size
      ensures mode.Uniform? ==> forall key: Key, x: U64 :: startIdx <= x < startIdx + size ==>
        (x in LogOf(batch, key) <==> key == hash(BE64(uniform(old(position) + (x - startIdx)) % numKeys)))
      ensures mode.Sequential? ==> forall key: Key, x: U64 :: startIdx <= x < startIdx + size ==>
        (x in LogOf(batch, key) <==> key == hash(BE64(x % numKeys)))
      ensures mode.Zipfian? ==> forall key: Key, x: U64 :: startIdx <= x < startIdx + size ==>
        (x in LogOf(batch, key) <==> key == hash(BE64(zipf(old(position) + (x - startIdx)))))
    {
      hide Assigned, Increasing, BE64;
      batch := map[];
      ghost var choice := Choice(startIdx, position);
      NothingAssigned(choice, startIdx);
      var i := 0;
      while i < size
        invariant 0 <= i <= size && position == old(position) + i
        invariant forall key: Key :: LogOf(batch, key) == Assigned(choice, key, startIdx, startIdx + i)
        invariant forall key: Key :: key in batch ==> batch[key] != []
      {
        var idx := startIdx + i;
        var key := KeyAt(idx, position);
        position := position + 1;
        GroupNext(batch, batch[key := LogOf(batch, key) + [idx]], choice, key, startIdx, idx);
        batch := batch[key := LogOf(batch, key) + [idx]];
        i := i + 1;
      }
      BatchByMode(batch, startIdx, size, old(position));
    }

    lemma BatchByMode(batch: Updates, startIdx: nat, size: nat, at: nat)
      requires startIdx + size <= TWO_64
      requires forall key: Key :: LogOf(batch, key) == Assigned(Choice(startIdx, at), key, startIdx, startIdx + size)
      ensures forall key: Key :: Increasing(LogOf(batch, key))
      ensures forall key: Key, x: U64 :: x in LogOf(batch, key) ==> startIdx <= x < startIdx + size
      ensures mode.Uniform? ==> forall key: Key, x: U64 :: startIdx <= x < startIdx + size ==>
        (x in LogOf(batch, key) <==> key == hash(BE64(uniform(at + (x - startIdx)) % numKeys)))
      ensures mode.Sequential? ==> forall key: Key, x: U64 :: startIdx <= x < startIdx + size ==>
        (x in LogOf(batch, key) <==> key == hash(BE64(x % numKeys)))
      ensures mode.Zipfian? ==> forall key: Key, x: U64 :: startIdx <= x < startIdx + size ==>
        (x in LogOf(batch, key) <==> key == hash(BE64(zipf(at + (x - startIdx)))))
    {
      hide *;
      MembersOfBatch(batch, Choice(startIdx, at), startIdx, startIdx + size);
      forall key: Key, x: U64 | startIdx <= x < startIdx + size
        ensures mode.Uniform? ==>
          (x in LogOf(batch, key) <==> key == hash(BE64(uniform(at + (x - startIdx)) % numKeys)))
        ensures mode.Sequential? ==> (x in LogOf(batch, key) <==> key == hash(BE64(x % numKeys)))
        ensures mode.Zipfian? ==> (x in LogOf(batch, key) <==> key == hash(BE64(zipf(at + (x - startIdx)))))
      {
        ChoiceByMode(startIdx, at, x);
      }
    }
  }

  lemma MembersOfBatch(batch: Updates, choice: nat -> Key, a: nat, b: nat)
    requires a <= b <= TWO_64
    requires forall key: Key :: LogOf(batch, key) == Assigned(choice, key, a, b)
    ensures forall key: Key :: Increasing(LogOf(batch, key))
    ensures forall key: Key, x: U64 :: x in LogOf(batch, key) ==> a <= x < b
    ensures forall key: Key, x: U64 :: x in LogOf(batch, key) ==> key == choice(x)
    ensures forall x: U64 :: a <= x < b ==> x in LogOf(batch, choice(x))
  {
    hide Assigned, Increasing, LogOf;
    forall key: Key
      ensures Increasing(LogOf(batch, key))
      ensures forall x: U64 :: x in LogOf(batch, key) ==> a <= x < b && key == choice(x)
      ensures forall x: U64 :: a <= x < b && key == choice(x) ==> x in LogOf(batch, key)
    {
      AssignedIsIncreasing(choice, key, a, b);
      AssignedMembers(choice, key, a, b);
    }
  }

  lemma GroupNext(batch: Updates, batch': Updates, choice: nat -> Key, key: Key, a: nat, idx: nat)
    requires a <= idx < TWO_64 && choice(idx) == key
    requires batch' == batch[key := LogOf(batch, key) + [idx]]
    requires forall k: Key :: LogOf(batch, k) == Assigned(choice, k, a, idx)
    ensures forall k: Key :: LogOf(batch', k) == Assigned(choice, k, a, idx + 1)
  {
    forall k: Key
      ensures LogOf(batch', k) == Assigned(choice, k, a, idx + 1)
    {
      assert LogOf(batch, k) == Assigned(choice, k, a, idx);
    }
  }

  /** NewGenerator: modes A, B and C, and at least one key; numKeys is a Go int. */
  method NewGenerator(mode: string, numKeys: int, uniform: nat -> nat, zipf: nat -> U64, hash: Bytes -> Key)
    returns (r: Result<Generator>)
    requires numKeys < 0x8000_0000_0000_0000
    ensures r.Ok? <==> (mode == "A" || mode == "B" || mode == "C") && numKeys > 0
    ensures r.Ok? ==> fresh(r.value) && r.value.position == 0 && r.value.numKeys == numKeys
    ensures r.Ok? ==> r.value.mode == if mode == "A" then Uniform else if mode == "B" then Sequential else Zipfian
    ensures r.Ok? ==> r.value.uniform == uniform && r.value.zipf == zipf && r.value.hash == hash
  {
    if mode != "A" && mode != "B" && mode != "C" {
      return Err(BadGenerator);
    }
    if numKeys <= 0 {
      return Err(BadGenerator);
    }
    var m := if mode == "A" then Uniform else if mode == "B" then Sequential else Zipfian;
    var g := new Generator(m, numKeys, uniform, zipf, hash);
    return Ok(g);
  }

  /** Batches cut from consecutive indices are good batches, run after run. */
  lemma NextBatchIsGood(c: Config, logs: Logs, batch: Updates, keyOf: nat -> Key, a: nat, b: nat)
    requires a <= b < TWO_64
    requires forall key: Key :: LogOf(logs, key) == Assigned(keyOf, key, 0, a)
    requires forall key: Key :: LogOf(batch, key) == Assigned(keyOf, key, a, b)
    ensures GoodBatch(c, logs, batch)
    ensures forall key: Key :: LogOf(Extend(logs, batch), key) == Assigned(keyOf, key, 0, b)
  {
    hide Assigned, Increasing, NonDecreasing, ChunkOrdered;
    forall key: Key
      ensures LogOf(logs, key) + LogOf(batch, key) == Assigned(keyOf, key, 0, b)
      ensures |Assigned(keyOf, key, 0, b)| < TWO_64 && ChunkOrdered(c.cs, Assigned(keyOf, key, 0, b))
      ensures NonDecreasing(LogOf(batch, key))
    {
      AssignedJoins(keyOf, key, 0, a, b);
      AssignedIsIncreasing(keyOf, key, 0, b);
      AssignedIsIncreasing(keyOf, key, a, b);
      IncreasingIsNonDecreasing(Assigned(keyOf, key, 0, b));
      IncreasingIsNonDecreasing(Assigned(keyOf, key, a, b));
      NonDecreasingIsChunkOrdered(c.cs, Assigned(keyOf, key, 0, b));
    }
  }

  /** The writer loop of RunBenchmark on a fresh store: no batch is ever refused, and each key
      ends up with exactly the indices that were given to it. */
  method RunBenchmark(store: IndexStore, gen: Generator, numBatches: nat, batchSize: nat) returns (r: Result<()>)
    requires store.Sound() && store.logs == map[] && gen.position == 0
    requires numBatches * batchSize < TWO_64
    modifies store, store.db, gen
    ensures r.Ok? && store.Sound()
    ensures forall key: Key ::
      store.Log(key) == Assigned(gen.Choice(0, 0), key, 0, numBatches * batchSize)
    ensures forall key: Key :: Increasing(store.Log(key))
    ensures forall key: Key, x: U64 ::
      x in store.Log(key) <==> 0 <= x < numBatches * batchSize && key == gen.Choice(0, 0)(x)
  {
    hide AllRep, Assigned, Increasing, LogOf;
    ghost var keyOf := gen.Choice(0, 0);
    var startIdx := 0;
    NothingAssigned(keyOf, 0);
    var i := 0;
    while i < numBatches
      invariant 0 <= i <= numBatches && startIdx == i * batchSize && gen.position == startIdx
      invariant store.Sound()
      invariant forall key: Key :: LogOf(store.logs, key) == Assigned(keyOf, key, 0, startIdx)
    {
      MulMonotone(i + 1, numBatches, batchSize);
      var batch := gen.NextBatch(batchSize, startIdx);
      SameChoice(gen, startIdx, startIdx + batchSize);
      NextBatchIsGood(store.c, store.logs, batch, keyOf, startIdx, startIdx + batchSize);
      GoodBatchIsAccepted(store.c, store.logs, batch);
      r := store.WriteBatch(batch);
      if r.Err? {
        return;
      }
      startIdx := startIdx + batchSize;
      i := i + 1;
    }
    MembersOfBatch(store.logs, keyOf, 0, startIdx);
    return Ok(());
  }

  lemma NothingAssigned(keyOf: nat -> Key, a: nat)
    requires a <= TWO_64
    ensures forall key: Key :: LogOf(map[], key) == Assigned(keyOf, key, a, a)
  {
  }

  lemma SameChoice(gen: Generator, a: nat, b: nat)
    requires b <= TWO_64
    ensures forall key: Key ::
      Assigned(gen.Choice(a, a), key, a, b) == Assigned(gen.Choice(0, 0), key, a, b)
  {
    forall key: Key
      ensures Assigned(gen.Choice(a, a), key, a, b) == Assigned(gen.Choice(0, 0), key, a, b)
    {
      AssignedAgree(gen.Choice(a, a), gen.Choice(0, 0), key, a, b);
    }
  }

  /** After the benchmark the logs partition [0, n): each index stands at exactly one position
      of the log of exactly one key, and Lookup from 0 returns that log from every store. */
  lemma LogsPartitionTheIndices(c: Config, keyOf: nat -> Key, n: nat, idx: nat)
    requires c.Valid() && idx < n < TWO_64
    ensures forall key: Key :: idx in Assigned(keyOf, key, 0, n) <==> key == keyOf(idx)
    ensures exists i :: 0 <= i < |Assigned(keyOf, keyOf(idx), 0, n)| && Assigned(keyOf, keyOf(idx), 0, n)[i] == idx
    ensures forall i, j :: 0 <= i < j < |Assigned(keyOf, keyOf(idx), 0, n)| ==>
      Assigned(keyOf, keyOf(idx), 0, n)[i] != Assigned(keyOf, keyOf(idx), 0, n)[j]
    ensures forall key: Key :: Answer(c, Assigned(keyOf, key, 0, n), 0) == Ok(Assigned(keyOf, key, 0, n))
  {
    var log := Assigned(keyOf, keyOf(idx), 0, n);
    forall key: Key ensures idx in Assigned(keyOf, key, 0, n) <==> key == keyOf(idx) {
      AssignedMembers(keyOf, key, 0, n);
    }
    hide Assigned, InOrder, NoRepeats;
    assert idx in log;
    AssignedIsIncreasing(keyOf, keyOf(idx), 0, n);
    forall key: Key
      ensures Answer(c, Assigned(keyOf, key, 0, n), 0) == Ok(Assigned(keyOf, key, 0, n))
    {
      AssignedIsIncreasing(keyOf, key, 0, n);
      IncreasingSuitsAll(c, Assigned(keyOf, key, 0, n));
      AnswerIsSuffix(c, Assigned(keyOf, key, 0, n), 0);
    }
  }
}
