/** The scanning lookups: ChunkScanStore, PrefixChunkScanStore and
    InvertedPrefixChunkScanStore visit the chunks from `start / chunkSize` on, in ascending
    order of chunk numbers, and slice what they collected by the first chunk's range. */
module Scan {
  import opened ByteStrings
  import opened Merkle
  import opened Codec
  import opened IndexLog
  import opened Pebble
  import opened Layout
  import opened Cursor
  import opened Latest
  import opened NoSeal

  /** The visited chunks are those from the seek bound up to, but excluding, chunk `n`. */
  ghost predicate Visited(c: Config, log: Log, from: nat, n: nat, acc: Log, skipped: U64, isSet: bool) {
    && Below(c.cs, log, from) <= Below(c.cs, log, n)
    && acc == log[Below(c.cs, log, from)..Below(c.cs, log, n)]
    && (isSet <==> acc != [])
    && (isSet ==> skipped == Below(c.cs, log, from))
  }

  /** Appends the absolute indices of one chunk. */
  method AppendAbsolute(c: Config, acc: Log, n: U64, rel: seq<U16>) returns (r: Log)
    ensures r == acc + AbsAll(c.cs, n, rel)
  {
    r := acc;
    var i := 0;
    while i < |rel|
      invariant 0 <= i <= |rel|
      invariant r == acc + AbsAll(c.cs, n, rel)[..i]
    {
      r := r + [Abs(c.cs, n, rel[i])];
      i := i + 1;
    }
  }

  /** The relative indices of a stored chunk restore its entries. */
  lemma EntriesRestored(c: Config, log: Log, x: U64)
    requires ChunkOrdered(c.cs, log) && HasChunk(c.cs, log, x)
    ensures AbsAll(c.cs, x, Rels(c.cs, Entries(c, log, x))) == Entries(c, log, x)
  {
    EntriesOfChunk(c.cs, log, x);
    AbsAllRestores(c.cs, x, Entries(c, log, x));
  }

  lemma VisitedNext(c: Config, log: Log, from: nat, n: nat, acc: Log, skipped: U64, isSet: bool, x: U64)
    requires |log| < TWO_64
    requires Visited(c, log, from, n, acc, skipped, isSet)
    requires HasChunk(c.cs, log, x) && Below(c.cs, log, x) == Below(c.cs, log, n)
    ensures RangeBefore(c, log, x).size < TWO_64
    ensures Visited(c, log, from, x as nat + 1, acc + Entries(c, log, x),
                    if isSet then skipped else RangeBefore(c, log, x).size, true)
  {
    hide Below, Frontier;
    SlicesJoin(log, Below(c.cs, log, from), Below(c.cs, log, n), Below(c.cs, log, x + 1));
  }

  lemma SlicesJoin(log: Log, p: nat, q: nat, e: nat)
    requires p <= q <= e <= |log|
    ensures log[p..q] + log[q..e] == log[p..e]
  {
  }

  /** The body of the scan loop, at the record of chunk `x`. */
  method Visit(c: Config, rec: Record, acc: Log, skipped: U64, isSet: bool,
               ghost key: Key, ghost log: Log, ghost from: nat, ghost n: nat, ghost x: U64)
    returns (r: Result<(Log, U64)>)
    requires c.kind.NoSeal() && |log| < TWO_64 && ChunkOrdered(c.cs, log)
    requires HasChunk(c.cs, log, x) && Below(c.cs, log, x) == Below(c.cs, log, n)
    requires rec == Record(RecordKey(c.kind, key, x), StoredValue(c, log, x))
    requires Visited(c, log, from, n, acc, skipped, isSet)
    ensures r.Ok? && Visited(c, log, from, x as nat + 1, r.value.0, r.value.1, true)
  {
    hide Below, HasChunk, Visited, StoredValue, RecordKey, RangeBefore, Entries, AbsAll, Rels, ChunkOrdered;
    var chunk := ReadChunk(c, rec, key, log, x);
    if chunk.Err? {
      return chunk.PropagateFailure();
    }
    EntriesRestored(c, log, x);
    VisitedNext(c, log, from, n, acc, skipped, isSet, x);
    var offset: U64 := if isSet then skipped else chunk.value.1.size;
    var indices := AppendAbsolute(c, acc, chunk.value.0, chunk.value.2);
    return Ok((indices, offset));
  }

  /** The tail of the lookups, once every chunk from the seek bound on was visited. */
  method Slice(c: Config, acc: Log, skipped: U64, isSet: bool, start: U64, ghost log: Log, ghost n: nat)
    returns (r: Result<Log>)
    requires |log| < TWO_64 && Below(c.cs, log, n) == |log|
    requires Visited(c, log, Chunk(c.cs, start), n, acc, skipped, isSet)
    ensures r == ScanAnswer(c.cs, log, start)
  {
    hide Below;
    if |acc| == 0 {
      return Ok([]);
    }
    if !isSet {
      return Err(NoChunks);
    }
    if start < skipped {
      return Err(InvariantViolated);
    }
    var offset := start - skipped;
    if offset >= |acc| {
      return Ok([]);
    }
    assert acc == log[skipped..];
    assert acc[offset..] == log[start..];
    return Ok(acc[offset..]);
  }

  /** An iterator bounded by the prefix successor sees the same records of the key, and
      nothing behind them. */
  lemma BoundedSnapshot(c: Config, rs: seq<Record>, key: Key, log: Log, bound: Bytes)
    requires Snapshot(c, rs, key, log)
    requires UpperBound(Prefix(c.kind, key)) == Some(bound)
    ensures Snapshot(c, rs[..Rank(rs, bound)], key, log)
    ensures forall i :: 0 <= i < Rank(rs, bound) && !HasPrefix(rs[i].key, Prefix(c.kind, key)) ==>
      !Less(Prefix(c.kind, key), rs[i].key)
  {
    hide StoredValue, HasChunk, Contents;
    var p := Prefix(c.kind, key);
    var cut := rs[..Rank(rs, bound)];
    forall k: Bytes | HasPrefix(k, p)
      ensures k in Contents(rs) <==> k in Contents(cut)
      ensures k in Contents(rs) ==> Contents(rs)[k] == Contents(cut)[k]
    {
      UpperBoundIsExact(p, k);
      ContentsBelow(rs, bound, k);
    }
    RepFrame(c, Contents(rs), Contents(cut), key, log);
    RankSplits(rs, bound);
    forall i | 0 <= i < Rank(rs, bound) && !HasPrefix(rs[i].key, p)
      ensures !Less(p, rs[i].key)
    {
      UpperBoundIsExact(p, rs[i].key);
      if Less(p, rs[i].key) { LessAsymmetric(p, rs[i].key); }
    }
  }

  /** The cursor stands on the cut at `n` in a snapshot of the log. */
  ghost predicate Standing(c: Config, rs: seq<Record>, key: Key, log: Log, at: int, n: nat) {
    Snapshot(c, rs, key, log) && ChunkCut(c.kind, rs, key, at, n)
  }

  /** The next record to visit: to the right of the cut, or to its left when inverted. */
  function NextPosition(kind: Kind, at: int): int {
    if kind.Inverted() then at - 1 else at
  }

  lemma Step(c: Config, rs: seq<Record>, key: Key, log: Log, at: int, n: nat)
    requires Standing(c, rs, key, log, at, n)
    ensures 0 <= at <= |rs| && |log| < TWO_64 && ChunkOrdered(c.cs, log)
    ensures var j := NextPosition(c.kind, at);
      if 0 <= j < |rs| && HasPrefix(rs[j].key, Prefix(c.kind, key)) then
        && |rs[j].key| == 41
        && var x := ChunkNumOf(c.kind, rs[j].key);
        && HasChunk(c.cs, log, x) && Below(c.cs, log, x) == Below(c.cs, log, n)
        && rs[j] == Record(RecordKey(c.kind, key, x), StoredValue(c, log, x))
        && Standing(c, rs, key, log, if c.kind.Inverted() then at - 1 else at + 1, x as nat + 1)
      else Below(c.cs, log, n) == |log|
  {
    hide StoredValue, HasChunk, Below, Less, Contents;
    NewerChunk(c, rs, key, log, at, n);
    var j := NextPosition(c.kind, at);
    if 0 <= j < |rs| {
      assert rs[j] == Record(rs[j].key, rs[j].value);
    }
  }

  lemma SeekStands(c: Config, rs: seq<Record>, key: Key, log: Log, n: U64)
    requires Snapshot(c, rs, key, log) && !c.kind.Inverted()
    ensures Standing(c, rs, key, log, Rank(rs, RecordKey(c.kind, key, n)), n)
  {
    hide StoredValue, HasChunk, Below, Less, Contents, Cut;
    SnapshotIsWellKeyed(c, rs, key, log);
    CutAtSeek(rs, Prefix(c.kind, key), n);
  }

  lemma NothingVisited(c: Config, log: Log, n: nat)
    ensures Visited(c, log, n, n, [], 0, false)
  {
  }

  lemma NewSnapshot(c: Config, db: DB, key: Key, log: Log)
    requires db.Valid() && Rep(c, db.State(), key, log) && !c.kind.FlatStore?
    ensures Snapshot(c, db.records, key, log)
  {
  }

  /** ChunkScanStore.Lookup: a forward range scan below the prefix successor. */
  method LookupForward(c: Config, db: DB, key: Key, start: U64, ghost log: Log) returns (r: Result<Log>)
    requires c.kind.ChunkScanStore? && db.Valid() && Rep(c, db.State(), key, log)
    ensures r == ScanAnswer(c.cs, log, start)
  {
    hide Rep, Snapshot, ChunkCut, StoredValue, HasChunk, Below, RecordKey, Contents, Visited, Standing, Rank, Less, ScanAnswer;
    var prefix := Prefix(c.kind, key);
    var startChunkNum := Chunk(c.cs, start);
    var startKey := RecordKey(c.kind, key, startChunkNum);
    var upperBound := PrefixUpperBound(prefix);
    UpperBoundExists(c.kind, key);
    var iter := db.NewIter(upperBound);
    NewSnapshot(c, db, key, log);
    BoundedSnapshot(c, db.records, key, log, upperBound.value);
    ghost var (rs, n: nat) := (iter.snapshot, startChunkNum);
    SeekStands(c, rs, key, log, startChunkNum);
    var acc: Log, skipped: U64, isSet := [], 0, false;
    NothingVisited(c, log, n);
    var valid := iter.SeekGE(startKey);
    while valid
      invariant iter.mode == None && valid == iter.Valid()
      invariant Standing(c, rs, key, log, iter.pos, n)
      invariant Visited(c, log, startChunkNum, n, acc, skipped, isSet)
      decreases |rs| - iter.pos
    {
      Step(c, rs, key, log, iter.pos, n);
      BoundedStep(c, rs, key, log, iter.pos, n);
      if |iter.Key()| != 41 {
        return Err(BadKeyLength);
      }
      ghost var x := ChunkNumOf(c.kind, iter.Key());
      var chunk := Visit(c, Record(iter.Key(), iter.Value()), acc, skipped, isSet, key, log, startChunkNum, n, x);
      if chunk.Err? {
        return chunk.PropagateFailure();
      }
      acc, skipped, isSet := chunk.value.0, chunk.value.1, true;
      n := x as nat + 1;
      valid := iter.Next();
    }
    Step(c, rs, key, log, iter.pos, n);
    r := Slice(c, acc, skipped, isSet, start, log, n);
  }

  /** A bounded iterator that stands at or behind the prefix is on a record of the key. */
  lemma BoundedStep(c: Config, rs: seq<Record>, key: Key, log: Log, at: int, n: nat)
    requires Standing(c, rs, key, log, at, n) && !c.kind.Inverted() && 0 <= at < |rs|
    requires forall i :: 0 <= i < |rs| && !HasPrefix(rs[i].key, Prefix(c.kind, key)) ==>
      !Less(Prefix(c.kind, key), rs[i].key)
    ensures HasPrefix(rs[at].key, Prefix(c.kind, key))
  {
    hide Less, Rep;
    assert IsAfter(rs[at].key, Prefix(c.kind, key), n);
  }

  /** PrefixChunkScanStore.Lookup: a forward scan confined to the prefix of the key. */
  method LookupPrefix(c: Config, db: DB, key: Key, start: U64, ghost log: Log) returns (r: Result<Log>)
    requires c.kind.PrefixChunkScanStore? && db.Valid() && Rep(c, db.State(), key, log)
    ensures r == ScanAnswer(c.cs, log, start)
  {
    hide Rep, Snapshot, ChunkCut, StoredValue, HasChunk, Below, RecordKey, Contents, Visited, Standing, Rank, Less, ScanAnswer, Split;
    var prefix := Prefix(c.kind, key);
    var startChunkNum := Chunk(c.cs, start);
    var startKey := RecordKey(c.kind, key, startChunkNum);
    var iter := db.NewIter(None);
    NewSnapshot(c, db, key, log);
    ghost var (rs, n: nat) := (iter.snapshot, startChunkNum);
    SeekStands(c, rs, key, log, startChunkNum);
    SplitOfRecordKey(c.kind, key, startChunkNum);
    var acc: Log, skipped: U64, isSet := [], 0, false;
    NothingVisited(c, log, n);
    var valid := iter.SeekPrefixGE(startKey);
    while valid && HasPrefix(iter.Key(), prefix)
      invariant iter.mode == Some(prefix) && valid == iter.Valid()
      invariant Standing(c, rs, key, log, iter.pos, n)
      invariant Visited(c, log, startChunkNum, n, acc, skipped, isSet)
      decreases |rs| - iter.pos
    {
      Step(c, rs, key, log, iter.pos, n);
      if |iter.Key()| != 41 {
        return Err(BadKeyLength);
      }
      ghost var x := ChunkNumOf(c.kind, iter.Key());
      var chunk := Visit(c, Record(iter.Key(), iter.Value()), acc, skipped, isSet, key, log, startChunkNum, n, x);
      if chunk.Err? {
        return chunk.PropagateFailure();
      }
      acc, skipped, isSet := chunk.value.0, chunk.value.1, true;
      n := x as nat + 1;
      valid := iter.Next();
    }
    ValidInPrefix(iter, prefix);
    Step(c, rs, key, log, iter.pos, n);
    r := Slice(c, acc, skipped, isSet, start, log, n);
  }

  lemma SplitOfRecordKey(kind: Kind, key: Key, n: U64)
    ensures Split(RecordKey(kind, key, n)) == Prefix(kind, key)
  {
  }

  /** After a seek in the inverted layout, the cut at the start chunk is behind an exact hit,
      or else at the position found. */
  lemma SeekStandsInverted(c: Config, rs: seq<Record>, key: Key, log: Log, n: U64)
    requires Snapshot(c, rs, key, log) && c.kind.Inverted()
    ensures var t := RecordKey(c.kind, key, n);
      var at := Rank(rs, t);
      Standing(c, rs, key, log, if at < |rs| && rs[at].key == t then at + 1 else at, n)
  {
    hide StoredValue, HasChunk, Below, Contents, Rank, Rep, Cut, Less, WellKeyed;
    var (p, r) := (Prefix(c.kind, key), Ordinal(c.kind, n));
    var t := p + BE64(r);
    SnapshotIsWellKeyed(c, rs, key, log);
    CutAtSeek(rs, p, r);
    if Rank(rs, t) < |rs| && rs[Rank(rs, t)].key == t {
      BE64RoundTrip(r);
      assert t[33..] == BE64(r);
      CutRight(rs, p, Rank(rs, t), r);
    } else {
      CutOverGap(rs, p, r);
    }
  }

  /** If no record carries the number `r`, the cuts at `r` and at `r + 1` coincide. */
  lemma CutOverGap(rs: seq<Record>, p: Bytes, r: U64)
    requires WellKeyed(rs, p)
    requires var t := p + BE64(r);
      Cut(rs, p, Rank(rs, t), r) && !(Rank(rs, t) < |rs| && rs[Rank(rs, t)].key == t)
    ensures Cut(rs, p, Rank(rs, p + BE64(r)), r as nat + 1)
  {
    hide Rank, Less;
    var at := Rank(rs, p + BE64(r));
    forall i | at <= i < |rs|
      ensures IsAfter(rs[i].key, p, r as nat + 1)
    {
      var k := rs[i].key;
      assert IsAfter(k, p, r);
      if HasPrefix(k, p) && Number(k) == r {
        NumberOrder(p, k, r);
        RankOfPresent(rs, i);
      }
    }
    forall i | 0 <= i < at
      ensures IsBefore(rs[i].key, p, r as nat + 1)
    {
      assert IsBefore(rs[i].key, p, r);
    }
  }

  /** Where the seek of the inverted lookup can land, relative to the key sought. */
  lemma SeekOrder(rs: seq<Record>, t: Bytes)
    requires Sorted(rs)
    ensures var at := Rank(rs, t);
      && (at < |rs| ==> (Less(t, rs[at].key) <==> rs[at].key != t))
      && (0 < at ==> !Less(t, rs[at - 1].key))
  {
    var at := Rank(rs, t);
    RankSplits(rs, t);
    LessIrreflexive(t);
    if at < |rs| { LessTotal(rs[at].key, t); }
    if 0 < at { LessAsymmetric(rs[at - 1].key, t); }
  }

  /** InvertedPrefixChunkScanStore.Lookup: position the cursor on the smallest chunk at or
      above the start chunk in one of four ways, then walk backwards. */
  method LookupInverted(c: Config, db: DB, key: Key, start: U64, ghost log: Log) returns (r: Result<Log>)
    requires c.kind.Inverted() && db.Valid() && Rep(c, db.State(), key, log)
    ensures r == ScanAnswer(c.cs, log, start)
  {
    hide Rep, ChunkCut, StoredValue, HasChunk, Below, RecordKey, Contents, Visited, Standing, Rank, Less, ScanAnswer;
    var prefix := Prefix(c.kind, key);
    var startChunkNum := Chunk(c.cs, start);
    var startKey := RecordKey(c.kind, key, startChunkNum);
    var iter := db.NewIter(None);
    NewSnapshot(c, db, key, log);
    ghost var (rs, n: nat) := (iter.snapshot, startChunkNum);
    SeekStandsInverted(c, rs, key, log, startChunkNum);
    SeekOrder(rs, startKey);
    var valid := iter.SeekGE(startKey);
    if valid && HasPrefix(iter.Key(), prefix) {
      if Less(startKey, iter.Key()) {
        valid := iter.Prev();
      }
    } else if !valid {
      valid := iter.Last();
      if valid && (!HasPrefix(iter.Key(), prefix) || Less(startKey, iter.Key())) {
        valid := false;
      }
    } else {
      valid := iter.Prev();
      if valid && (!HasPrefix(iter.Key(), prefix) || Less(startKey, iter.Key())) {
        valid := false;
      }
    }
    var acc: Log, skipped: U64, isSet := [], 0, false;
    NothingVisited(c, log, n);
    while valid && HasPrefix(iter.Key(), prefix)
      invariant iter.mode == None
      invariant Standing(c, rs, key, log, iter.pos + 1, n)
      invariant valid ==> iter.Valid()
      invariant !valid ==> !(iter.Valid() && HasPrefix(iter.Key(), prefix))
      invariant Visited(c, log, startChunkNum, n, acc, skipped, isSet)
      decreases iter.pos
    {
      Step(c, rs, key, log, iter.pos + 1, n);
      if |iter.Key()| != 41 {
        return Err(BadKeyLength);
      }
      ghost var x := ChunkNumOf(c.kind, iter.Key());
      var chunk := Visit(c, Record(iter.Key(), iter.Value()), acc, skipped, isSet, key, log, startChunkNum, n, x);
      if chunk.Err? {
        return chunk.PropagateFailure();
      }
      acc, skipped, isSet := chunk.value.0, chunk.value.1, true;
      n := x as nat + 1;
      valid := iter.Prev();
    }
    Step(c, rs, key, log, iter.pos + 1, n);
    r := Slice(c, acc, skipped, isSet, start, log, n);
  }
}
