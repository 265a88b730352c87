/** Where a cursor stands in a store that holds many keys. A cut separates, among the records
    under one prefix, the numbers below `r` from the others, and every other record from both. */
module Cursor {
  import opened ByteStrings
  import opened IndexLog
  import opened Pebble
  import opened Layout

  lemma {:induction false} UnprefixedOrder(k: Bytes, p: Bytes, s: Bytes)
    requires !HasPrefix(k, p)
    ensures Less(k, p + s) <==> Less(k, p)
    ensures Less(k, p) || Less(p, k)
  {
    if p != [] && k != [] && k[0] == p[0] {
      assert (p + s)[1..] == p[1..] + s;
      PrefixCons(k, p);
      UnprefixedOrder(k[1..], p[1..], s);
    }
  }

  lemma PrefixCons(k: Bytes, p: Bytes)
    requires k != [] && p != []
    ensures HasPrefix(k, p) <==> k[0] == p[0] && HasPrefix(k[1..], p[1..])
  {
    if |p| <= |k| {
      assert k[..|p|] == [k[0]] + k[1..][..|p| - 1] && p == [p[0]] + p[1..];
      assert k[1..][..|p| - 1] == k[..|p|][1..];
    }
  }

  predicate Numbered(k: Bytes) {
    |k| == 41
  }

  ghost predicate IsBefore(k: Bytes, p: Bytes, r: nat) {
    if HasPrefix(k, p) then Numbered(k) && Number(k) < r else Less(k, p)
  }

  ghost predicate IsAfter(k: Bytes, p: Bytes, r: nat) {
    if HasPrefix(k, p) then Numbered(k) && Number(k) >= r else Less(p, k)
  }

  ghost predicate Cut(rs: seq<Record>, p: Bytes, at: int, r: nat) {
    && 0 <= at <= |rs|
    && (forall i :: 0 <= i < at ==> IsBefore(rs[i].key, p, r))
    && (forall i :: at <= i < |rs| ==> IsAfter(rs[i].key, p, r))
  }

  /** All records under the prefix are chunk records. */
  ghost predicate WellKeyed(rs: seq<Record>, p: Bytes) {
    |p| == 33 && Sorted(rs)
    && forall i :: 0 <= i < |rs| && HasPrefix(rs[i].key, p) ==> Numbered(rs[i].key)
  }

  lemma NumberOrder(p: Bytes, k: Bytes, r: U64)
    requires |p| == 33 && HasPrefix(k, p) && Numbered(k)
    ensures Less(k, p + BE64(r)) <==> Number(k) < r
    ensures k == p + BE64(Number(k))
  {
    FromBE64Fits(k[33..]);
    assert k == p + k[33..];
    CommonPrefixCancels(p, k[33..], BE64(r));
    Pow256Eight();
    BigEndianIsMonotone(Number(k), r, 8);
  }

  /** A seek to prefix + r lands on the cut at r. */
  lemma CutAtSeek(rs: seq<Record>, p: Bytes, r: U64)
    requires WellKeyed(rs, p)
    ensures Cut(rs, p, Rank(rs, p + BE64(r)), r)
  {
    var t := p + BE64(r);
    RankSplits(rs, t);
    forall i | 0 <= i < |rs|
      ensures i < Rank(rs, t) ==> IsBefore(rs[i].key, p, r)
      ensures i >= Rank(rs, t) ==> IsAfter(rs[i].key, p, r)
    {
      SideOfSeek(rs[i].key, p, r);
    }
  }

  lemma SideOfSeek(k: Bytes, p: Bytes, r: U64)
    requires |p| == 33 && (HasPrefix(k, p) ==> Numbered(k))
    ensures if Less(k, p + BE64(r)) then IsBefore(k, p, r) else IsAfter(k, p, r)
  {
    if HasPrefix(k, p) {
      NumberOrder(p, k, r);
    } else {
      UnprefixedOrder(k, p, BE64(r));
    }
  }

  /** A seek to the bare prefix lands before all its records. */
  lemma CutAtPrefix(rs: seq<Record>, p: Bytes)
    requires WellKeyed(rs, p)
    ensures Cut(rs, p, Rank(rs, p), 0)
  {
    RankSplits(rs, p);
    forall i | 0 <= i < |rs|
      ensures i < Rank(rs, p) ==> IsBefore(rs[i].key, p, 0)
      ensures i >= Rank(rs, p) ==> IsAfter(rs[i].key, p, 0)
    {
      var k := rs[i].key;
      if HasPrefix(k, p) {
        PrefixedNotBelow(k, p);
      } else {
        UnprefixedOrder(k, p, []);
      }
    }
  }

  /** A seek to the upper bound of the prefix lands behind all its records. */
  lemma CutAtUpperBound(rs: seq<Record>, p: Bytes)
    requires WellKeyed(rs, p) && UpperBound(p).Some?
    ensures Cut(rs, p, Rank(rs, UpperBound(p).value), TWO_64)
  {
    var u := UpperBound(p).value;
    RankSplits(rs, u);
    forall i | 0 <= i < |rs|
      ensures i < Rank(rs, u) ==> IsBefore(rs[i].key, p, TWO_64)
      ensures i >= Rank(rs, u) ==> IsAfter(rs[i].key, p, TWO_64)
    {
      var k := rs[i].key;
      UpperBoundIsExact(p, k);
      if !HasPrefix(k, p) {
        UnprefixedOrder(k, p, []);
        if Less(k, p) {
          LessAsymmetric(k, p);
          UpperBoundIsExact(p, p);
          LessTransitive(k, p, u);
        }
      }
    }
  }

  /** The record right of a cut has the least number at or above it. */
  lemma CutRight(rs: seq<Record>, p: Bytes, at: int, r: nat)
    requires WellKeyed(rs, p) && Cut(rs, p, at, r)
    ensures at < |rs| && HasPrefix(rs[at].key, p) ==>
      var x: nat := Number(rs[at].key);
      x >= r && Cut(rs, p, at + 1, x + 1)
      && forall i :: 0 <= i < |rs| && HasPrefix(rs[i].key, p) ==> !(r <= Number(rs[i].key) < x)
    ensures !(at < |rs| && HasPrefix(rs[at].key, p)) ==>
      forall i :: 0 <= i < |rs| && HasPrefix(rs[i].key, p) ==> Number(rs[i].key) < r
  {
    forall i | at < i < |rs|
      ensures HasPrefix(rs[i].key, p) ==> HasPrefix(rs[at].key, p)
      ensures HasPrefix(rs[at].key, p) ==> IsAfter(rs[i].key, p, Number(rs[at].key) + 1)
    {
      OrderAcross(rs[at].key, rs[i].key, p);
    }
    if at < |rs| && HasPrefix(rs[at].key, p) {
      var x: nat := Number(rs[at].key);
      forall i | 0 <= i < at + 1 ensures IsBefore(rs[i].key, p, x + 1) {
        assert i < at ==> IsBefore(rs[i].key, p, r);
      }
      forall i | 0 <= i < |rs| && HasPrefix(rs[i].key, p)
        ensures !(r <= Number(rs[i].key) < x)
      {
        assert i < at ==> IsBefore(rs[i].key, p, r);
      }
    } else {
      forall i | 0 <= i < |rs| && HasPrefix(rs[i].key, p)
        ensures Number(rs[i].key) < r
      {
        assert i < at ==> IsBefore(rs[i].key, p, r);
      }
    }
  }

  lemma OrderAcross(a: Bytes, b: Bytes, p: Bytes)
    requires |p| == 33 && Less(a, b)
    requires HasPrefix(a, p) ==> Numbered(a)
    requires HasPrefix(b, p) ==> Numbered(b)
    ensures HasPrefix(a, p) && HasPrefix(b, p) ==> Number(a) < Number(b)
    ensures HasPrefix(a, p) && !HasPrefix(b, p) ==> Less(p, b) && !Less(b, p)
    ensures !HasPrefix(a, p) && HasPrefix(b, p) ==> Less(a, p) && !Less(p, a)
  {
    hide Less, Number;
    if HasPrefix(b, p) {
      NumberOrder(p, b, 0);
      if HasPrefix(a, p) {
        NumberOrder(p, a, Number(b));
      } else {
        UnprefixedOrder(a, p, BE64(Number(b)));
        LessAsymmetric(a, p);
      }
    } else if HasPrefix(a, p) {
      UnprefixedOrder(b, p, []);
      PrefixedNotBelow(a, p);
      if Less(b, p) {
        LessTransitive(a, b, p);
      } else {
        LessAsymmetric(p, b);
      }
    }
  }

  /** The record left of a cut has the greatest number below it. */
  lemma CutLeft(rs: seq<Record>, p: Bytes, at: int, r: nat)
    requires WellKeyed(rs, p) && Cut(rs, p, at, r)
    ensures at > 0 && HasPrefix(rs[at - 1].key, p) ==>
      var x: nat := Number(rs[at - 1].key);
      x < r && Cut(rs, p, at - 1, x)
      && forall i :: 0 <= i < |rs| && HasPrefix(rs[i].key, p) ==> !(x < Number(rs[i].key) < r)
    ensures !(at > 0 && HasPrefix(rs[at - 1].key, p)) ==>
      forall i :: 0 <= i < |rs| && HasPrefix(rs[i].key, p) ==> Number(rs[i].key) >= r
  {
    forall i | 0 <= i < at - 1
      ensures HasPrefix(rs[i].key, p) ==> HasPrefix(rs[at - 1].key, p)
      ensures HasPrefix(rs[at - 1].key, p) ==> IsBefore(rs[i].key, p, Number(rs[at - 1].key))
    {
      OrderAcross(rs[i].key, rs[at - 1].key, p);
      assert IsBefore(rs[at - 1].key, p, r);
    }
    if at > 0 && HasPrefix(rs[at - 1].key, p) {
      var x: nat := Number(rs[at - 1].key);
      assert IsBefore(rs[at - 1].key, p, r);
      forall i | at - 1 <= i < |rs| ensures IsAfter(rs[i].key, p, x) {
        assert i >= at ==> IsAfter(rs[i].key, p, r);
      }
      forall i | 0 <= i < |rs| && HasPrefix(rs[i].key, p)
        ensures !(x < Number(rs[i].key) < r)
      {
        assert i >= at ==> IsAfter(rs[i].key, p, r);
      }
    } else {
      forall i | 0 <= i < |rs| && HasPrefix(rs[i].key, p)
        ensures Number(rs[i].key) >= r
      {
        assert i >= at ==> IsAfter(rs[i].key, p, r);
      }
    }
  }

  // ---------------------------------------------------------------- cuts by chunk number

  /** Position `at` separates the chunks below `n` from the others: the lower chunks stand on
      the left, or on the right when chunk numbers are inverted. */
  ghost predicate ChunkCut(kind: Kind, rs: seq<Record>, key: Key, at: int, n: nat) {
    n <= TWO_64 && Cut(rs, Prefix(kind, key), at, if kind.Inverted() then TWO_64 - n else n)
  }

  /** The snapshot represents the log of the key. */
  ghost predicate Snapshot(c: Config, rs: seq<Record>, key: Key, log: Log) {
    !c.kind.FlatStore? && Sorted(rs) && Rep(c, Contents(rs), key, log)
  }

  lemma SnapshotIsWellKeyed(c: Config, rs: seq<Record>, key: Key, log: Log)
    requires Snapshot(c, rs, key, log)
    ensures WellKeyed(rs, Prefix(c.kind, key))
  {
    hide StoredValue, HasChunk;
    ContentsOfSorted(rs);
    forall i | 0 <= i < |rs| && HasPrefix(rs[i].key, Prefix(c.kind, key))
      ensures Numbered(rs[i].key)
    {
      assert RecordOk(c, Contents(rs), log, rs[i].key);
    }
  }

  /** The chunk record at position `j` of a snapshot. */
  ghost predicate IsChunkAt(c: Config, rs: seq<Record>, key: Key, log: Log, j: int, x: U64)
    requires |log| < TWO_64
  {
    && 0 <= j < |rs|
    && rs[j].key == RecordKey(c.kind, key, x)
    && ChunkNumOf(c.kind, rs[j].key) == x
    && HasChunk(c.cs, log, x)
    && rs[j].value == StoredValue(c, log, x)
  }

  lemma ChunkAtPosition(c: Config, rs: seq<Record>, key: Key, log: Log, j: int)
    requires Snapshot(c, rs, key, log)
    requires 0 <= j < |rs| && HasPrefix(rs[j].key, Prefix(c.kind, key))
    ensures |rs[j].key| == 41
    ensures IsChunkAt(c, rs, key, log, j, ChunkNumOf(c.kind, rs[j].key))
  {
    hide StoredValue, HasChunk;
    ContentsOfSorted(rs);
    assert RecordOk(c, Contents(rs), log, rs[j].key);
    RecordKeyOfKey(c.kind, key, rs[j].key);
  }

  /** Every entry of the log has its chunk somewhere in the snapshot. */
  lemma EntryHasRecord(c: Config, rs: seq<Record>, key: Key, log: Log, i: nat) returns (j: nat)
    requires Snapshot(c, rs, key, log) && i < |log|
    ensures j < |rs| && HasPrefix(rs[j].key, Prefix(c.kind, key)) && |rs[j].key| == 41
    ensures Number(rs[j].key) == Ordinal(c.kind, Chunk(c.cs, log[i]))
  {
    var n := Chunk(c.cs, log[i]);
    ChunkOfEntryPresent(c.cs, log, i);
    RepChunk(c, Contents(rs), key, log, n);
    ContentsOfSorted(rs);
    j :| 0 <= j < |rs| && rs[j].key == RecordKey(c.kind, key, n);
    RecordKeyRoundTrip(c.kind, key, n);
  }

  /** If no record number lies in an interval, no entry lies in the corresponding chunks. */
  lemma NoRecordsNoEntries(c: Config, rs: seq<Record>, key: Key, log: Log, a: nat, b: nat)
    requires Snapshot(c, rs, key, log) && a <= b
    requires WellKeyed(rs, Prefix(c.kind, key))
    requires forall i :: 0 <= i < |rs| && HasPrefix(rs[i].key, Prefix(c.kind, key)) ==>
      !(a <= ChunkNumOf(c.kind, rs[i].key) < b)
    ensures Below(c.cs, log, a) == Below(c.cs, log, b)
  {
    hide StoredValue, Below, Less, Contents;
    forall i | 0 <= i < |log|
      ensures !(a <= Chunk(c.cs, log[i]) < b)
    {
      var j := EntryHasRecord(c, rs, key, log, i);
    }
    BelowGap(c.cs, log, a, b);
  }

  /** The record on the newer side of a cut at `n` is the least chunk at or above `n`; if
      there is none, no entry lies at or above `n`. Stepping over it moves the cut. */
  lemma NewerChunk(c: Config, rs: seq<Record>, key: Key, log: Log, at: int, n: nat)
    requires Snapshot(c, rs, key, log) && ChunkCut(c.kind, rs, key, at, n)
    ensures var j := if c.kind.Inverted() then at - 1 else at;
      if 0 <= j < |rs| && HasPrefix(rs[j].key, Prefix(c.kind, key)) then
        && |rs[j].key| == 41
        && var x: nat := ChunkNumOf(c.kind, rs[j].key);
          && x >= n && IsChunkAt(c, rs, key, log, j, x)
          && Below(c.cs, log, x) == Below(c.cs, log, n)
          && ChunkCut(c.kind, rs, key, if c.kind.Inverted() then at - 1 else at + 1, x + 1)
      else Below(c.cs, log, n) == |log|
  {
    hide StoredValue, HasChunk, Below, Less, Contents, Cut;
    var p := Prefix(c.kind, key);
    var j := if c.kind.Inverted() then at - 1 else at;
    SnapshotIsWellKeyed(c, rs, key, log);
    if c.kind.Inverted() {
      CutLeft(rs, p, at, TWO_64 - n);
    } else {
      CutRight(rs, p, at, n);
    }
    CutInRange(c.kind, rs, key, at, n);
    if 0 <= j < |rs| && HasPrefix(rs[j].key, p) {
      ChunkAtPosition(c, rs, key, log, j);
      NoRecordsNoEntries(c, rs, key, log, n, ChunkNumOf(c.kind, rs[j].key));
    } else {
      NoRecordsNoEntries(c, rs, key, log, n, TWO_64);
      BelowAtEnds(c.cs, log);
    }
  }

  lemma CutInRange(kind: Kind, rs: seq<Record>, key: Key, at: int, n: nat)
    requires ChunkCut(kind, rs, key, at, n)
    ensures 0 <= at <= |rs|
  {
  }

  /** The record on the older side of a cut at `n` is the greatest chunk below `n`; if there
      is none, no entry lies below `n`. */
  lemma OlderChunk(c: Config, rs: seq<Record>, key: Key, log: Log, at: int, n: nat)
    requires Snapshot(c, rs, key, log) && ChunkCut(c.kind, rs, key, at, n)
    ensures var j := if c.kind.Inverted() then at else at - 1;
      if 0 <= j < |rs| && HasPrefix(rs[j].key, Prefix(c.kind, key)) then
        && |rs[j].key| == 41
        && var x: nat := ChunkNumOf(c.kind, rs[j].key);
          && x < n && IsChunkAt(c, rs, key, log, j, x)
          && Below(c.cs, log, x + 1) == Below(c.cs, log, n)
          && ChunkCut(c.kind, rs, key, if c.kind.Inverted() then at + 1 else at - 1, x)
      else Below(c.cs, log, n) == 0
  {
    hide StoredValue, HasChunk, Below, Less, Contents, Cut;
    var p := Prefix(c.kind, key);
    var j := if c.kind.Inverted() then at else at - 1;
    SnapshotIsWellKeyed(c, rs, key, log);
    if c.kind.Inverted() {
      CutRight(rs, p, at, TWO_64 - n);
    } else {
      CutLeft(rs, p, at, n);
    }
    CutInRange(c.kind, rs, key, at, n);
    if 0 <= j < |rs| && HasPrefix(rs[j].key, p) {
      ChunkAtPosition(c, rs, key, log, j);
      NoRecordsNoEntries(c, rs, key, log, ChunkNumOf(c.kind, rs[j].key) + 1, n);
    } else {
      NoRecordsNoEntries(c, rs, key, log, 0, n);
      BelowZero(c.cs, log);
    }
  }
}
