/** The abstract object: the append-only log of one key, cut into chunks by the global
    index. Chunk `n` holds the entries whose index divided by the chunk size is `n`. */
module IndexLog {
  import opened ByteStrings
  import opened Codec

  type Log = seq<U64>

  /** The constructors accept chunk sizes from 1 to 65536. */
  type ChunkSize = c: int | 1 <= c <= 65536 witness 1

  ghost predicate NonDecreasing(log: Log) {
    forall i, j :: 0 <= i < j < |log| ==> log[i] <= log[j]
  }

  ghost predicate Increasing(log: Log) {
    forall i, j :: 0 <= i < j < |log| ==> log[i] < log[j]
  }

  /** No index stands in the log twice. */
  ghost predicate NoRepeats(log: Log) {
    forall i, j :: 0 <= i < j < |log| ==> log[i] != log[j]
  }

  /** In index order, that is to be strictly increasing. */
  lemma IncreasingIffNoRepeats(log: Log)
    ensures Increasing(log) <==> NonDecreasing(log) && NoRepeats(log)
  {
  }

  lemma IncreasingIsNonDecreasing(log: Log)
    requires Increasing(log)
    ensures NonDecreasing(log)
  {
  }

  /** What Lookup promises: the log from the start-th entry on. */
  function Suffix(log: Log, start: nat): Log {
    if start >= |log| then [] else log[start..]
  }

  /** Entry by entry: the answer is as long as what is left, and starts at `start`. */
  lemma SuffixElements(log: Log, start: nat)
    ensures |Suffix(log, start)| == if start >= |log| then 0 else |log| - start
    ensures forall i :: 0 <= i < |Suffix(log, start)| ==> Suffix(log, start)[i] == log[start + i]
  {
  }

  /** The sortedness test looks at neighbours only. */
  lemma {:induction false} NonDecreasingAdjacent(log: Log)
    ensures NonDecreasing(log) <==> forall i :: 0 < i < |log| ==> log[i - 1] <= log[i]
  {
    if forall i :: 0 < i < |log| ==> log[i - 1] <= log[i] {
      forall i, j | 0 <= i < j < |log| ensures log[i] <= log[j] {
        ClimbTo(log, i, j);
      }
    }
  }

  lemma {:induction false} ClimbTo(log: Log, i: nat, j: nat)
    requires i < j < |log| && forall k :: 0 < k < |log| ==> log[k - 1] <= log[k]
    ensures log[i] <= log[j]
  {
    if i < j - 1 { ClimbTo(log, i, j - 1); }
  }

  // ---------------------------------------------------------------- chunk arithmetic

  function Chunk(cs: ChunkSize, x: U64): (n: U64)
    ensures n <= x
  {
    x / cs
  }

  /** uint16(idx % chunkSize) */
  function Rel(cs: ChunkSize, x: U64): U16 {
    x % cs
  }

  /** chunkNum * chunkSize + uint64(rel), in 64-bit arithmetic. */
  function Abs(cs: ChunkSize, n: U64, rel: U16): U64 {
    (n * cs + rel) % TWO_64
  }

  /** An index is restored exactly from its chunk number and its relative index. */
  lemma AbsRestores(cs: ChunkSize, x: U64)
    ensures Abs(cs, Chunk(cs, x), Rel(cs, x)) == x
  {
    DivMod(cs, x);
  }

  lemma DivMod(cs: nat, x: nat)
    requires cs > 0
    ensures x / cs * cs + x % cs == x
  {
  }

  lemma MulMonotone(a: nat, b: nat, c: nat)
    requires a <= b
    ensures a * c <= b * c
  {
  }

  lemma ChunkMonotone(cs: ChunkSize, x: U64, y: U64)
    requires x <= y
    ensures Chunk(cs, x) <= Chunk(cs, y)
  {
    var (n, m) := (Chunk(cs, x), Chunk(cs, y));
    DivMod(cs, x);
    DivMod(cs, y);
    if m < n {
      MulMonotone(m + 1, n, cs);
    }
  }

  /** Chunk numbers never decrease along the log; within a chunk any order is allowed. This is
      all the order that the chunked layouts rely on. */
  ghost predicate ChunkOrdered(cs: ChunkSize, log: Log) {
    forall i, j :: 0 <= i < j < |log| ==> Chunk(cs, log[i]) <= Chunk(cs, log[j])
  }

  lemma NonDecreasingIsChunkOrdered(cs: ChunkSize, log: Log)
    requires NonDecreasing(log)
    ensures ChunkOrdered(cs, log)
  {
    forall i, j | 0 <= i < j < |log| ensures Chunk(cs, log[i]) <= Chunk(cs, log[j]) {
      ChunkMonotone(cs, log[i], log[j]);
    }
  }

  /** Chunk order, too, is a matter of neighbours. */
  lemma {:induction false} ChunkOrderedAdjacent(cs: ChunkSize, log: Log)
    ensures ChunkOrdered(cs, log) <==> forall i :: 0 < i < |log| ==> log[i - 1] / cs <= log[i] / cs
  {
    var chunks := seq(|log|, i requires 0 <= i < |log| => Chunk(cs, log[i]));
    assert ChunkOrdered(cs, log) <==> NonDecreasing(chunks) by {
      assert forall i :: 0 <= i < |log| ==> chunks[i] == Chunk(cs, log[i]);
    }
    NonDecreasingAdjacent(chunks);
    assert forall i :: 0 <= i < |log| ==> chunks[i] == log[i] / cs;
    hide ChunkOrdered, NonDecreasing;
  }

  lemma ChunkOfOne(x: U64)
    ensures Chunk(1, x) == x
  {
  }

  /** With one index per chunk, chunk order is index order. */
  lemma ChunkOrderOfOne(log: Log)
    ensures ChunkOrdered(1, log) <==> NonDecreasing(log)
  {
    forall i | 0 <= i < |log| ensures Chunk(1, log[i]) == log[i] {
      ChunkOfOne(log[i]);
    }
  }

  function Rels(cs: ChunkSize, entries: Log): (r: seq<U16>)
    ensures |r| == |entries|
  {
    seq(|entries|, i requires 0 <= i < |entries| => Rel(cs, entries[i]))
  }

  function AbsAll(cs: ChunkSize, n: U64, rels: seq<U16>): (r: Log)
    ensures |r| == |rels|
  {
    seq(|rels|, i requires 0 <= i < |rels| => Abs(cs, n, rels[i]))
  }

  lemma AbsAllRestores(cs: ChunkSize, n: U64, entries: Log)
    requires forall i :: 0 <= i < |entries| ==> Chunk(cs, entries[i]) == n
    ensures AbsAll(cs, n, Rels(cs, entries)) == entries
  {
    forall i | 0 <= i < |entries|
      ensures Abs(cs, n, Rel(cs, entries[i])) == entries[i]
    {
      AbsRestores(cs, entries[i]);
    }
  }

  /** Within one chunk the relative indices lie below the chunk size and sort as the indices. */
  lemma RelsAreOrdered(cs: ChunkSize, n: U64, entries: Log)
    requires forall i :: 0 <= i < |entries| ==> Chunk(cs, entries[i]) == n
    ensures var r := Rels(cs, entries);
      && (forall i :: 0 <= i < |r| ==> r[i] < cs && n * cs + r[i] == entries[i])
      && (forall i, j :: 0 <= i < |r| && 0 <= j < |r| ==> (r[i] < r[j] <==> entries[i] < entries[j]))
  {
    forall i | 0 <= i < |entries|
      ensures entries[i] == n * cs + Rel(cs, entries[i]) && Rel(cs, entries[i]) < cs
    {
      DivMod(cs, entries[i]);
    }
  }

  // ---------------------------------------------------------------- cutting a log at a chunk

  /** The number of leading entries in chunks below `n`. */
  function Below(cs: ChunkSize, log: Log, n: nat): (p: nat)
    ensures p <= |log|
  {
    if log == [] then 0
    else if Chunk(cs, log[|log| - 1]) < n then |log|
    else Below(cs, log[..|log| - 1], n)
  }

  /** The chunk of the i-th entry, if there is one. Naming it in a proof lets the verifier
      apply the facts about all entries to that one. */
  function ChunkAt(cs: ChunkSize, log: Log, i: nat): U64 {
    if i < |log| then Chunk(cs, log[i]) else 0
  }

  lemma {:induction false} BelowSplits(cs: ChunkSize, log: Log, n: nat)
    requires ChunkOrdered(cs, log)
    ensures forall i :: 0 <= i < Below(cs, log, n) ==> Chunk(cs, log[i]) < n
    ensures forall i :: Below(cs, log, n) <= i < |log| ==> Chunk(cs, log[i]) >= n
  {
    if log != [] {
      var k := |log| - 1;
      if Chunk(cs, log[k]) < n {
        forall i | 0 <= i < |log| ensures Chunk(cs, log[i]) < n {
        }
      } else {
        var init := log[..k];
        BelowSplits(cs, init, n);
        assert forall i :: 0 <= i < k ==> init[i] == log[i];
      }
    }
  }

  /** In terms of the indices: the entries below a cut are those in lower chunks. */
  lemma BelowCounts(cs: ChunkSize, log: Log, n: nat)
    requires ChunkOrdered(cs, log)
    ensures forall i :: 0 <= i < |log| ==> (i < Below(cs, log, n) <==> log[i] / cs < n)
  {
    BelowSplits(cs, log, n);
  }

  lemma BelowIsUnique(cs: ChunkSize, log: Log, n: nat, p: nat)
    requires ChunkOrdered(cs, log) && p <= |log|
    requires forall i :: 0 <= i < p ==> Chunk(cs, log[i]) < n
    requires forall i :: p <= i < |log| ==> Chunk(cs, log[i]) >= n
    ensures Below(cs, log, n) == p
  {
    var q := Below(cs, log, n);
    var (atQ, atP) := (ChunkAt(cs, log, q), ChunkAt(cs, log, p));
    BelowSplits(cs, log, n);
  }

  lemma BelowMonotone(cs: ChunkSize, log: Log, a: nat, b: nat)
    requires ChunkOrdered(cs, log) && a <= b
    ensures Below(cs, log, a) <= Below(cs, log, b)
  {
    var (p, q) := (Below(cs, log, a), Below(cs, log, b));
    var atQ := ChunkAt(cs, log, q);
    BelowSplits(cs, log, a);
    BelowSplits(cs, log, b);
  }

  /** Every entry is below chunk 2^64, and none is below chunk 0. */
  lemma BelowAtEnds(cs: ChunkSize, log: Log)
    ensures Below(cs, log, TWO_64) == |log|
  {
  }

  lemma BelowZero(cs: ChunkSize, log: Log)
    requires ChunkOrdered(cs, log)
    ensures Below(cs, log, 0) == 0
  {
    var first := ChunkAt(cs, log, 0);
    BelowSplits(cs, log, 0);
  }

  lemma BelowAppend(cs: ChunkSize, log: Log, x: U64, n: nat)
    ensures Below(cs, log + [x], n) == if Chunk(cs, x) < n then |log| + 1 else Below(cs, log, n)
  {
    assert (log + [x])[..|log|] == log;
  }

  /** No entry lies beyond the chunk of an index that may be appended. */
  lemma NothingBeyond(cs: ChunkSize, log: Log, x: U64, n: nat)
    requires ChunkOrdered(cs, log + [x]) && n > Chunk(cs, x)
    ensures Below(cs, log, n) == |log| && Below(cs, log, n + 1) == |log|
  {
    var log' := log + [x];
    if log != [] {
      assert Chunk(cs, log'[|log| - 1]) <= Chunk(cs, log'[|log|]);
    }
  }

  /** Chunks without entries do not move the cut. */
  lemma BelowGap(cs: ChunkSize, log: Log, a: nat, b: nat)
    requires ChunkOrdered(cs, log) && a <= b
    requires forall i :: 0 <= i < |log| ==> !(a <= Chunk(cs, log[i]) < b)
    ensures Below(cs, log, a) == Below(cs, log, b)
  {
    var p := Below(cs, log, a);
    var atP := ChunkAt(cs, log, p);
    BelowMonotone(cs, log, a, b);
    BelowSplits(cs, log, a);
    BelowSplits(cs, log, b);
  }

  /** A chunk that already has a successor keeps its cut when the log grows. */
  lemma BelowOfExtension(cs: ChunkSize, log: Log, more: Log, n: nat)
    requires ChunkOrdered(cs, log + more)
    requires Below(cs, log, n) < |log|
    ensures Below(cs, log + more, n) == Below(cs, log, n)
  {
    var all := log + more;
    assert forall i :: 0 <= i < |log| ==> log[i] == all[i];
    assert ChunkOrdered(cs, log);
    BelowSplits(cs, log, n);
    var p := Below(cs, log, n);
    forall i | p <= i < |all| ensures Chunk(cs, all[i]) >= n {
      assert Chunk(cs, all[p]) <= Chunk(cs, all[i]);
    }
    BelowIsUnique(cs, all, n, p);
  }

  lemma BelowGrows(cs: ChunkSize, log: Log, more: Log, n: nat)
    requires ChunkOrdered(cs, log + more)
    ensures Below(cs, log, n) <= Below(cs, log + more, n)
  {
    var all := log + more;
    if Below(cs, log, n) < |log| {
      BelowOfExtension(cs, log, more, n);
    } else if log != [] {
      var p := Below(cs, all, n);
      var (atP, atP') := (ChunkAt(cs, all, p), ChunkAt(cs, log, p));
      assert forall i :: 0 <= i < |log| ==> log[i] == all[i];
      BelowSplits(cs, log, n);
      BelowSplits(cs, all, n);
    }
  }

  /** Does chunk `n` hold an entry? */
  predicate HasChunk(cs: ChunkSize, log: Log, n: nat) {
    Below(cs, log, n) < Below(cs, log, n + 1)
  }

  lemma EntriesOfChunk(cs: ChunkSize, log: Log, n: nat)
    requires ChunkOrdered(cs, log)
    ensures Below(cs, log, n) <= Below(cs, log, n + 1)
    ensures forall i :: Below(cs, log, n) <= i < Below(cs, log, n + 1) ==> Chunk(cs, log[i]) == n
  {
    BelowSplits(cs, log, n);
    BelowSplits(cs, log, n + 1);
    BelowMonotone(cs, log, n, n + 1);
  }

  lemma ChunkOfEntryPresent(cs: ChunkSize, log: Log, i: nat)
    requires ChunkOrdered(cs, log) && i < |log|
    ensures HasChunk(cs, log, Chunk(cs, log[i]))
    ensures Below(cs, log, Chunk(cs, log[i])) <= i < Below(cs, log, Chunk(cs, log[i]) + 1)
  {
    var n: nat := Chunk(cs, log[i]);
    BelowSplits(cs, log, n);
    BelowSplits(cs, log, n + 1);
  }

  /** A chunk exists exactly when some index falls into it. */
  lemma HasChunkIff(cs: ChunkSize, log: Log, n: nat)
    requires ChunkOrdered(cs, log)
    ensures HasChunk(cs, log, n) <==> exists i :: 0 <= i < |log| && log[i] / cs == n
  {
    EntriesOfChunk(cs, log, n);
    if HasChunk(cs, log, n) {
      assert log[Below(cs, log, n)] / cs == n;
    }
    if i :| 0 <= i < |log| && log[i] / cs == n {
      ChunkOfEntryPresent(cs, log, i);
    }
  }

  /** The numbers of the chunks into which the entries from position `b` on fall. */
  function ChunkNumbers(cs: ChunkSize, log: Log, b: nat): set<int> {
    set i | b <= i < |log| :: log[i] / cs
  }

  // ---------------------------------------------------------------- the scanning lookups

  /** What a scan from chunk `start / chunkSize` answers on any chunk-ordered log. */
  function ScanAnswer(cs: ChunkSize, log: Log, start: U64): Result<Log> {
    var skipped := Below(cs, log, Chunk(cs, start));
    if skipped == |log| then Ok([])
    else if start < skipped then Err(InvariantViolated)
    else Ok(Suffix(log, start))
  }

  /** Every outcome of a scan, by the number `p` of entries in lower chunks than that of
      `start`: nothing to visit, the "invariant violated" exit, or the entries from `start` on. */
  lemma ScanOutcomes(cs: ChunkSize, log: Log, start: U64, p: nat)
    requires p <= |log|
    requires forall i :: 0 <= i < p ==> log[i] / cs < start / cs
    requires forall i :: p <= i < |log| ==> start / cs <= log[i] / cs
    requires ChunkOrdered(cs, log)
    ensures var r := ScanAnswer(cs, log, start);
      && (p == |log| ==> r == Ok([]))
      && (start < p < |log| ==> r == Err(InvariantViolated))
      && (p < |log| && p <= start ==>
           && r.Ok?
           && |r.value| == (if start >= |log| then 0 else |log| - start)
           && forall i :: 0 <= i < |r.value| ==> r.value[i] == log[start + i])
  {
    BelowIsUnique(cs, log, Chunk(cs, start), p);
    SuffixElements(log, start);
    hide Below, Suffix;
  }

  /** The pigeonhole: the entries in chunks below the chunk of `start` are indices below
      `start`, so without repetition they are at most `start`. */
  lemma SeekBoundIsSafe(cs: ChunkSize, log: Log, start: U64)
    requires ChunkOrdered(cs, log) && NoRepeats(log)
    ensures Below(cs, log, Chunk(cs, start)) <= start
  {
    var p := Below(cs, log, Chunk(cs, start));
    BelowSplits(cs, log, Chunk(cs, start));
    hide Below, ChunkOrdered, Chunk;
    forall i | 0 <= i < p ensures log[i] < start {
      if start <= log[i] { ChunkMonotone(cs, start, log[i]); }
    }
    Pigeonhole(log[..p], start);
  }

  /** Different numbers below `n` are at most `n`. */
  lemma {:induction false} Pigeonhole(log: Log, n: nat)
    requires NoRepeats(log) && forall i :: 0 <= i < |log| ==> log[i] < n
    ensures |log| <= n
    decreases n
  {
    if k :| 0 <= k < |log| && log[k] == n - 1 {
      Pigeonhole(log[..k] + log[k + 1..], n - 1);
    } else if log != [] {
      assert log[0] < n;
      Pigeonhole(log, n - 1);
    }
  }

  /** A scan answers with the promised suffix exactly when the seek bound is safe. */
  lemma ScanIsExactIff(cs: ChunkSize, log: Log, start: U64)
    ensures ScanAnswer(cs, log, start) == Ok(Suffix(log, start))
       <==> Below(cs, log, Chunk(cs, start)) <= start
  {
  }

  /** A chunk has no more entries before it than there are indices before it. */
  ghost predicate SeekBoundsHold(cs: ChunkSize, log: Log) {
    forall n: U64 :: n * cs < TWO_64 ==> Below(cs, log, n) <= n * cs
  }

  /** Over all starts, exactness is a condition on the log alone, which a writer can check. */
  lemma ScanIsExactFromEveryStartIff(cs: ChunkSize, log: Log)
    ensures (forall start: U64 :: ScanAnswer(cs, log, start) == Ok(Suffix(log, start))) <==> SeekBoundsHold(cs, log)
  {
    hide ScanAnswer, Below, SeekBoundsHold;
    if forall start: U64 :: ScanAnswer(cs, log, start) == Ok(Suffix(log, start)) {
      ExactScansNeedBounds(cs, log);
    }
    if SeekBoundsHold(cs, log) {
      forall start: U64 ensures ScanAnswer(cs, log, start) == Ok(Suffix(log, start)) {
        BoundsMakeScanExact(cs, log, start);
      }
    }
  }

  lemma ExactScansNeedBounds(cs: ChunkSize, log: Log)
    requires forall start: U64 :: ScanAnswer(cs, log, start) == Ok(Suffix(log, start))
    ensures SeekBoundsHold(cs, log)
  {
    hide ScanAnswer, Below;
    forall n: U64 | n * cs < TWO_64 ensures Below(cs, log, n) <= n * cs {
      ScanIsExactIff(cs, log, n * cs);
      ChunkOfMultiple(cs, n);
    }
  }

  lemma BoundsMakeScanExact(cs: ChunkSize, log: Log, start: U64)
    requires SeekBoundsHold(cs, log)
    ensures ScanAnswer(cs, log, start) == Ok(Suffix(log, start))
  {
    DivMod(cs, start);
    ScanIsExactIff(cs, log, start);
    hide ScanAnswer, Below;
    assert Below(cs, log, Chunk(cs, start)) <= Chunk(cs, start) * cs;
  }

  lemma ChunkOfMultiple(cs: ChunkSize, n: U64)
    requires n * cs < TWO_64
    ensures Chunk(cs, n * cs) == n
  {
    DivMod(cs, n * cs);
    QuotientOfMultiple(n, n * cs / cs, n * cs % cs, cs);
  }

  lemma QuotientOfMultiple(n: nat, q: nat, r: nat, d: nat)
    requires q * d + r == n * d && r < d
    ensures q == n
  {
    MulStrict(q, n, d);
    MulStrict(n, q, d);
  }

  lemma MulStrict(a: nat, b: nat, d: nat)
    ensures a < b ==> a * d + d <= b * d
  {
    if a < b { MulMonotone(a + 1, b, d); }
  }

  /** Without repeated indices a scan always gives the promised suffix. */
  lemma ScanIsExact(cs: ChunkSize, log: Log, start: U64)
    requires ChunkOrdered(cs, log) && NoRepeats(log)
    ensures ScanAnswer(cs, log, start) == Ok(Suffix(log, start))
  {
    SeekBoundIsSafe(cs, log, start);
  }

  /** With a duplicate index, which WriteBatch accepts, a scan can lose entries or fail. */
  lemma ScanOnDuplicates()
    ensures ScanAnswer(1, [0, 0], 1) == Ok([]) && Suffix([0, 0], 1) == [0]
    ensures ScanAnswer(1, [0, 0, 5], 1) == Err(InvariantViolated)
    ensures NonDecreasing([0, 0, 5]) && !Increasing([0, 0])
  {
    var a: Log := [0, 0];
    var b: Log := [0, 0, 5];
    assert a[..1] == [0];
    assert b[..2] == [0, 0];
    assert Below(1, a, 1) == 2;
    assert Below(1, b, 1) == Below(1, b[..2], 1) == 2;
    assert a[0] == a[1];
  }

  // ---------------------------------------------------------------- the one-record-per-index log

  /** The log without repetitions: all that one record per index can keep. */
  function Distinct(log: Log): (d: Log)
    ensures |d| <= |log|
  {
    if log == [] then []
    else
      var k := |log| - 1;
      if k > 0 && log[k - 1] == log[k] then Distinct(log[..k]) else Distinct(log[..k]) + [log[k]]
  }

  /** One record per index keeps the whole log exactly when it has no repetition. */
  lemma {:induction false} DistinctIsExactIff(log: Log)
    requires NonDecreasing(log)
    ensures Distinct(log) == log <==> Increasing(log)
  {
    if log != [] {
      var k := |log| - 1;
      var (init, x) := (log[..k], log[k]);
      assert log == init + [x];
      assert NonDecreasing(init);
      DistinctIsExactIff(init);
      IncreasingSnoc(init, x);
      if !(k > 0 && log[k - 1] == x) {
        assert Distinct(log) == Distinct(init) + [x];
        assert (Distinct(init) + [x])[..|Distinct(init)|] == Distinct(init);
      }
    }
  }

  lemma IncreasingSnoc(init: Log, x: U64)
    requires NonDecreasing(init + [x])
    ensures Increasing(init + [x]) <==> Increasing(init) && (init == [] || init[|init| - 1] != x)
  {
    var log := init + [x];
    assert forall i :: 0 <= i < |init| ==> log[i] == init[i];
    assert log[|init|] == x;
  }

  /** What is kept: every index of the log, once, in order. */
  lemma {:induction false} DistinctKeepsEach(log: Log)
    requires NonDecreasing(log)
    ensures Increasing(Distinct(log))
    ensures forall x :: x in Distinct(log) <==> x in log
  {
    if log != [] {
      var k := |log| - 1;
      var (init, x) := (log[..k], log[k]);
      assert log == init + [x];
      DistinctKeepsEach(init);
      var d := Distinct(init);
      forall y | y in d ensures y <= x {
        assert y in init;
      }
      if k > 0 && log[k - 1] == x {
        assert init[k - 1] in init;
      } else {
        forall i | 0 <= i < |d| ensures d[i] < x {
          assert d[i] in init;
          var j :| 0 <= j < |init| && init[j] == d[i];
          assert log[j] <= log[k - 1] < x;
        }
      }
    }
  }

  /** A run of one repeated index adds a single entry. */
  lemma {:induction false} DistinctOfRun(log: Log, x: U64, a: nat, b: nat)
    requires a < b <= |log|
    requires forall i :: a <= i < b ==> log[i] == x
    requires a > 0 ==> log[a - 1] != x
    ensures Distinct(log[..b]) == Distinct(log[..a]) + [x]
    decreases b
  {
    var h := log[..b];
    assert h[..b - 1] == log[..b - 1];
    if b - 1 > a {
      assert h[b - 2] == h[b - 1];
      DistinctOfRun(log, x, a, b - 1);
    }
  }
}
