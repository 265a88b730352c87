/** Finding the latest chunk of a key: by the reverse seek below the prefix successor, by the
    forward scan to the end of the prefix, or, when chunk numbers are inverted, by one seek. */
module Latest {
  import opened ByteStrings
  import opened Merkle
  import opened Codec
  import opened IndexLog
  import opened Pebble
  import opened Layout
  import opened Cursor

  /** `r` is the record of the chunk of the last entry, or nothing for an empty log. */
  ghost predicate IsLatestRecord(c: Config, key: Key, log: Log, r: Option<Record>)
    requires |log| < TWO_64
  {
    if log == [] then r == None
    else
      var n := Chunk(c.cs, log[|log| - 1]);
      && HasChunk(c.cs, log, n) && IsLatest(c, log, n)
      && r == Some(Record(RecordKey(c.kind, key, n), StoredValue(c, log, n)))
  }

  /** A chunk with no entry above it is the chunk of the last entry. */
  lemma LastChunkIsLatest(c: Config, rs: seq<Record>, key: Key, log: Log, j: int, x: U64)
    requires Snapshot(c, rs, key, log) && IsChunkAt(c, rs, key, log, j, x)
    requires Below(c.cs, log, x + 1) == |log|
    ensures IsLatestRecord(c, key, log, Some(rs[j]))
  {
    hide StoredValue, Less, Contents;
    EntriesOfChunk(c.cs, log, x);
    assert Chunk(c.cs, log[|log| - 1]) == x;
    assert rs[j] == Record(rs[j].key, rs[j].value);
  }

  lemma EmptyIffNothingBelow(c: Config, log: Log)
    ensures Below(c.cs, log, TWO_64) == 0 <==> log == []
  {
  }

  lemma UpperBoundExists(kind: Kind, key: Key)
    ensures UpperBound(Prefix(kind, key)).Some?
  {
    NoUpperBound(Prefix(kind, key));
    assert Prefix(kind, key)[0] == Tag(kind) != 255;
  }

  /** iter.SeekLT(prefixUpperBound(prefix)), then the prefix check. */
  method SeekLatest(c: Config, key: Key, iter: Iterator, ghost log: Log) returns (r: Option<Record>)
    requires Snapshot(c, iter.snapshot, key, log) && !c.kind.Inverted()
    modifies iter
    ensures IsLatestRecord(c, key, log, r)
    ensures r.Some? ==> iter.Valid() && r.value == iter.snapshot[iter.pos] && iter.mode == None
    ensures r.Some? ==> ChunkCut(c.kind, iter.snapshot, key, iter.pos + 1, TWO_64)
  {
    hide StoredValue, Less, Contents, Below, HasChunk, Cut, Rank;
    var prefix := Prefix(c.kind, key);
    var upperBound := PrefixUpperBound(prefix);
    UpperBoundExists(c.kind, key);
    ghost var rs := iter.snapshot;
    SnapshotIsWellKeyed(c, rs, key, log);
    CutAtUpperBound(rs, prefix);
    var valid := iter.SeekLT(upperBound.value);
    OlderChunk(c, rs, key, log, iter.pos + 1, TWO_64);
    EmptyIffNothingBelow(c, log);
    BelowAtEnds(c.cs, log);
    if valid && HasPrefix(iter.Key(), prefix) {
      LastChunkIsLatest(c, rs, key, log, iter.pos, ChunkNumOf(c.kind, iter.Key()));
      return Some(Record(iter.Key(), iter.Value()));
    }
    return None;
  }

  lemma SplitIsPrefix(k: Bytes, p: Bytes)
    requires |p| == 33
    ensures Split(p) == p
    ensures Split(k) == p <==> HasPrefix(k, p)
  {
    assert p[..33] == p;
  }

  /** iter.SeekPrefixGE(prefix), then Next while the prefix lasts. */
  method ScanToLatest(c: Config, key: Key, iter: Iterator, ghost log: Log) returns (latest: Option<Record>)
    requires Snapshot(c, iter.snapshot, key, log) && !c.kind.Inverted()
    modifies iter
    ensures IsLatestRecord(c, key, log, latest)
  {
    hide StoredValue, Less, Contents, Below, HasChunk, Cut, Rank, Split, RecordKey, Prefix;
    var prefix := Prefix(c.kind, key);
    ghost var rs := iter.snapshot;
    SnapshotIsWellKeyed(c, rs, key, log);
    CutAtPrefix(rs, prefix);
    SplitIsPrefix(prefix, prefix);
    latest := None;
    var valid := iter.SeekPrefixGE(prefix);
    ghost var n: nat := 0;
    BelowZero(c.cs, log);
    NewerChunk(c, rs, key, log, iter.pos, 0);
    ValidInPrefix(iter, prefix);
    var more := valid && HasPrefix(iter.Key(), prefix);
    while more
      invariant iter.mode == Some(prefix)
      invariant ChunkCut(c.kind, rs, key, iter.pos, n)
      invariant more ==> iter.Valid() && HasPrefix(iter.Key(), prefix)
      invariant !more ==> Below(c.cs, log, n) == |log|
      invariant latest.None? ==> n == 0
      invariant latest.Some? ==> n > 0 && IsChunkAt(c, rs, key, log, iter.pos - 1, n - 1)
      invariant latest.Some? ==> latest.value == rs[iter.pos - 1]
      decreases |rs| - iter.pos
    {
      NewerChunk(c, rs, key, log, iter.pos, n);
      latest := Some(Record(iter.Key(), iter.Value()));
      n := ChunkNumOf(c.kind, iter.Key()) as nat + 1;
      valid := iter.Next();
      NewerChunk(c, rs, key, log, iter.pos, n);
      ValidInPrefix(iter, prefix);
      more := valid && HasPrefix(iter.Key(), prefix);
    }
    if latest.Some? {
      LastChunkIsLatest(c, rs, key, log, iter.pos - 1, n - 1);
    }
  }

  lemma ValidInPrefix(iter: Iterator, prefix: Bytes)
    requires |prefix| == 33 && iter.mode == Some(prefix)
    ensures iter.Valid() <==>
      0 <= iter.pos < |iter.snapshot| && HasPrefix(iter.snapshot[iter.pos].key, prefix)
  {
    if 0 <= iter.pos < |iter.snapshot| {
      SplitIsPrefix(iter.snapshot[iter.pos].key, prefix);
    }
  }

  /** In the inverted layout the first record of the prefix is the latest chunk. */
  method SeekFirst(c: Config, key: Key, iter: Iterator, ghost log: Log) returns (r: Option<Record>)
    requires Snapshot(c, iter.snapshot, key, log) && c.kind.Inverted()
    modifies iter
    ensures IsLatestRecord(c, key, log, r)
  {
    hide StoredValue, Less, Contents, Below, HasChunk, Cut, Rank, Split;
    var prefix := Prefix(c.kind, key);
    ghost var rs := iter.snapshot;
    SnapshotIsWellKeyed(c, rs, key, log);
    CutAtPrefix(rs, prefix);
    SplitIsPrefix(prefix, prefix);
    var valid := iter.SeekPrefixGE(prefix);
    ValidInPrefix(iter, prefix);
    OlderChunk(c, rs, key, log, iter.pos, TWO_64);
    EmptyIffNothingBelow(c, log);
    BelowAtEnds(c.cs, log);
    if valid && HasPrefix(iter.Key(), prefix) {
      LastChunkIsLatest(c, rs, key, log, iter.pos, ChunkNumOf(c.kind, iter.Key()));
      return Some(Record(iter.Key(), iter.Value()));
    }
    return None;
  }

  /** How each store looks for the latest record of a key. */
  method FindLatest(c: Config, key: Key, iter: Iterator, ghost log: Log) returns (r: Option<Record>)
    requires Snapshot(c, iter.snapshot, key, log)
    modifies iter
    ensures IsLatestRecord(c, key, log, r)
  {
    if c.kind.Inverted() {
      r := SeekFirst(c, key, iter, log);
    } else if c.kind.PrefixChunkScanStore? {
      r := ScanToLatest(c, key, iter, log);
    } else {
      r := SeekLatest(c, key, iter, log);
    }
  }
}
