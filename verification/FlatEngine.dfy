/** FlatStore, the naive store: one record per key with the range and the whole log. */
module FlatEngine {
  import opened ByteStrings
  import opened Merkle
  import opened Codec
  import opened IndexLog
  import opened Pebble
  import opened Layout
  import opened Writer
  import NoSeal
  import LogEngine

  /** Reads the record of a key; an absent record stands for the empty log. */
  method ReadLog(c: Config, db: DB, key: Key, ghost log: Log) returns (r: Result<Option<(Range, Log)>>)
    requires c.kind.FlatStore? && db.Valid() && Rep(c, db.State(), key, log)
    ensures r.Ok?
    ensures r.value.None? ==> log == []
    ensures r.value.Some? ==> r.value.value == (RangeOf(c.h, log), log)
  {
    hide FlatBytes, RangeOf;
    var val := db.Get(Prefix(c.kind, key));
    if val.None? {
      return Ok(None);
    }
    var v := DeserializeFlatValue(val.value);
    if v.Err? {
      return v.PropagateFailure();
    }
    return Ok(Some((v.value.0, v.value.1)));
  }

  lemma FlatSet(c: Config, m: map<Bytes, Bytes>, key: Key, log: Log, v: Bytes)
    requires c.kind.FlatStore? && |log| < TWO_64 && v == FlatBytes(WholeRange(c, log), log)
    ensures Rep(c, m[Prefix(c.kind, key) := v], key, log)
    ensures SameOutside(Prefix(c.kind, key), m, m[Prefix(c.kind, key) := v])
  {
    hide FlatBytes, WholeRange;
    assert HasPrefix(Prefix(c.kind, key), Prefix(c.kind, key));
  }

  /** FlatStore.WriteBatch for one key: also an empty update writes a record. */
  method WriteKey(c: Config, db: DB, key: Key, newIndices: Log, batch: Batch, ghost log: Log)
    returns (r: Result<()>)
    requires c.kind.FlatStore? && db.Valid() && Rep(c, db.State(), key, log)
    requires |log + newIndices| < TWO_64
    modifies batch
    ensures r.Ok?
    ensures Rep(c, Overlay(db.State(), batch), key, log + newIndices)
    ensures Prefix(c.kind, key) in Overlay(db.State(), batch)
    ensures SameOutside(Prefix(c.kind, key), old(Overlay(db.State(), batch)), Overlay(db.State(), batch))
  {
    hide FlatBytes, Contents, RangeOf, SameOutside, Overlay;
    ghost var before := Overlay(db.State(), batch);
    var stored := ReadLog(c, db, key, log);
    if stored.Err? {
      return stored.PropagateFailure();
    }
    LogEngine.EmptyRange(c);
    var range: CompactRange;
    var indices: Log;
    if stored.value.None? {
      range := new CompactRange(c.h, Range(0, []));
      indices := [];
    } else {
      range := new CompactRange(c.h, stored.value.value.0);
      indices := stored.value.value.1;
    }
    var i := 0;
    while i < |newIndices|
      invariant 0 <= i <= |newIndices| && indices == log + newIndices[..i]
      invariant fresh(range) && range.h == c.h && range.Value() == RangeOf(c.h, indices)
      invariant Overlay(db.State(), batch) == before
    {
      range.AppendIndex(newIndices[i], indices);
      indices := indices + [newIndices[i]];
      i := i + 1;
    }
    assert newIndices[..i] == newIndices;
    RangeOfIsValid(c.h, indices);
    var value := SerializeFlatValue(range, indices);
    FlatSet(c, before, key, indices, value);
    SetRecord(batch, Prefix(c.kind, key), value, db.State());
    return Ok(());
  }

  method Lookup(c: Config, db: DB, key: Key, start: U64, ghost log: Log) returns (r: Result<Log>)
    requires c.kind.FlatStore? && db.Valid() && Rep(c, db.State(), key, log)
    ensures r == Ok(Suffix(log, start))
  {
    hide RangeOf, Rep;
    var stored := ReadLog(c, db, key, log);
    if stored.Err? {
      return stored.PropagateFailure();
    }
    if stored.value.None? {
      return Ok([]);
    }
    var indices := stored.value.value.1;
    if start >= |indices| {
      return Ok([]);
    }
    return Ok(indices[start..]);
  }

  method GetSubRoot(c: Config, db: DB, key: Key, ghost log: Log) returns (r: Result<Hash>)
    requires c.kind.FlatStore? && db.Valid() && Rep(c, db.State(), key, log)
    ensures r == Ok(LogRoot(c.h, log))
  {
    hide RangeOf, TreeHash, FlatBytes;
    var stored := ReadLog(c, db, key, log);
    if stored.Err? {
      return stored.PropagateFailure();
    }
    if stored.value.None? {
      NoSeal.EmptyRoot(c.h);
      return Ok(c.h.empty);
    }
    var range := new CompactRange(c.h, stored.value.value.0);
    var root := range.SubRoot(log);
    if root.None? {
      return Err(RootFailed);
    }
    return Ok(root.value);
  }
}
