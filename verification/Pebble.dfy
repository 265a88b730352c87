/** The part of Pebble that the stores rely on: a key-value store ordered by bytes.Compare,
    an atomic batch in which the last Set of a key wins, and an iterator that walks a
    snapshot while Get reads the live store. */
module Pebble {
  import opened ByteStrings

  datatype Record = Record(key: Bytes, value: Bytes)

  ghost predicate Sorted(rs: seq<Record>) {
    forall i, j :: 0 <= i < j < |rs| ==> Less(rs[i].key, rs[j].key)
  }

  /** What a sequence of records says as a map; a later record of a key wins. */
  function Contents(rs: seq<Record>): map<Bytes, Bytes> {
    if rs == [] then map[]
    else Contents(rs[..|rs| - 1])[rs[|rs| - 1].key := rs[|rs| - 1].value]
  }

  lemma ContentsOfSnoc(rs: seq<Record>, r: Record)
    ensures Contents(rs + [r]) == Contents(rs)[r.key := r.value]
  {
    assert (rs + [r])[..|rs|] == rs;
  }

  /** In a sorted sequence each record is in the map, and nothing else is. */
  lemma {:induction false} ContentsOfSorted(rs: seq<Record>)
    requires Sorted(rs)
    ensures forall i :: 0 <= i < |rs| ==> rs[i].key in Contents(rs) && Contents(rs)[rs[i].key] == rs[i].value
    ensures forall k :: k in Contents(rs) ==> exists i :: 0 <= i < |rs| && rs[i].key == k
  {
    if rs != [] {
      var n := |rs| - 1;
      var init := rs[..n];
      ContentsOfSorted(init);
      forall i | 0 <= i < |rs|
        ensures rs[i].key in Contents(rs) && Contents(rs)[rs[i].key] == rs[i].value
      {
        if i < n {
          LessIrreflexive(rs[i].key);
          assert init[i] == rs[i];
        }
      }
      forall k | k in Contents(rs)
        ensures exists i :: 0 <= i < |rs| && rs[i].key == k
      {
        if k != rs[n].key {
          assert k in Contents(init);
          var i :| 0 <= i < |init| && init[i].key == k;
          assert rs[i].key == k;
        }
      }
    }
  }

  // ---------------------------------------------------------------- positions

  /** The number of leading records below `k`: where a seek to `k` lands. */
  function Rank(rs: seq<Record>, k: Bytes): (n: nat)
    ensures n <= |rs|
  {
    if rs == [] then 0
    else if Less(rs[|rs| - 1].key, k) then |rs|
    else Rank(rs[..|rs| - 1], k)
  }

  lemma {:induction false} RankSplits(rs: seq<Record>, k: Bytes)
    requires Sorted(rs)
    ensures forall i :: 0 <= i < Rank(rs, k) ==> Less(rs[i].key, k)
    ensures forall i :: Rank(rs, k) <= i < |rs| ==> !Less(rs[i].key, k)
  {
    if rs != [] {
      var n := |rs| - 1;
      if Less(rs[n].key, k) {
        forall i | 0 <= i < |rs| ensures Less(rs[i].key, k) {
          if i < n { LessTransitive(rs[i].key, rs[n].key, k); }
        }
      } else {
        var init := rs[..n];
        RankSplits(init, k);
        assert forall i :: 0 <= i < n ==> init[i] == rs[i];
      }
    }
  }

  /** Sorted insertion, replacing the value of a key that is present. */
  function Put(rs: seq<Record>, r: Record): seq<Record> {
    var i := Rank(rs, r.key);
    if i < |rs| && rs[i].key == r.key then rs[i := r]
    else rs[..i] + [r] + rs[i..]
  }

  lemma PutKeepsSorted(rs: seq<Record>, r: Record)
    requires Sorted(rs)
    ensures Sorted(Put(rs, r))
  {
    var n := Rank(rs, r.key);
    var ps := Put(rs, r);
    RankSplits(rs, r.key);
    if !(n < |rs| && rs[n].key == r.key) {
      forall i, j | 0 <= i < j < |ps|
        ensures Less(ps[i].key, ps[j].key)
      {
        var i' := if i <= n then i else i - 1;
        var j' := if j <= n then j else j - 1;
        if i == n {
          LessTotal(rs[j'].key, r.key);
          LessTotal(rs[n].key, r.key);
          if j' > n { LessMixed(r.key, rs[n].key, rs[j'].key); }
        } else if j != n {
          assert ps[i] == rs[i'] && ps[j] == rs[j'];
        }
      }
    }
  }

  lemma PutAtEnd(init: seq<Record>, last: Record, r: Record)
    requires Sorted(init + [last])
    ensures Less(last.key, r.key) ==> Put(init + [last], r) == init + [last] + [r]
    ensures last.key == r.key ==> Put(init + [last], r) == init + [r]
    ensures Less(r.key, last.key) ==> Put(init + [last], r) == Put(init, r) + [last]
  {
    var rs := init + [last];
    assert rs[..|init|] == init && rs[|init|] == last;
    LessIrreflexive(r.key);
    if Less(r.key, last.key) {
      LessAsymmetric(r.key, last.key);
    }
    if last.key == r.key {
      RankSplits(init, r.key);
      assert forall i :: 0 <= i < |init| ==> init[i] == rs[i];
      assert Rank(init, r.key) == |init|;
    }
  }

  lemma UpdateTwice(m: map<Bytes, Bytes>, a: Record, b: Record)
    ensures a.key == b.key ==> m[a.key := a.value][b.key := b.value] == m[b.key := b.value]
    ensures a.key != b.key ==>
      m[a.key := a.value][b.key := b.value] == m[b.key := b.value][a.key := a.value]
  {
  }

  lemma {:induction false} PutUpdatesContents(rs: seq<Record>, r: Record)
    requires Sorted(rs)
    ensures Contents(Put(rs, r)) == Contents(rs)[r.key := r.value]
  {
    if rs == [] {
      assert Put(rs, r) == [] + [r];
      ContentsOfSnoc([], r);
    } else {
      var (init, last) := (rs[..|rs| - 1], rs[|rs| - 1]);
      assert rs == init + [last];
      PutUpdatesContents(init, r);
      PutBehind(init, last, r);
    }
  }

  lemma {:induction false} PutBehind(init: seq<Record>, last: Record, r: Record)
    requires Sorted(init + [last])
    requires Contents(Put(init, r)) == Contents(init)[r.key := r.value]
    ensures Contents(Put(init + [last], r)) == Contents(init + [last])[r.key := r.value]
  {
    PutAtEnd(init, last, r);
    LessTotal(last.key, r.key);
    LessIrreflexive(last.key);
    hide *;
    ContentsOfSnoc(init, last);
    if Less(r.key, last.key) {
      ContentsOfSnoc(Put(init, r), last);
    } else if last.key == r.key {
      ContentsOfSnoc(init, r);
    } else {
      ContentsOfSnoc(init + [last], r);
    }
    UpdateTwice(Contents(init), last, r);
  }

  lemma {:induction false} RankOfPresent(rs: seq<Record>, j: nat)
    requires Sorted(rs) && j < |rs|
    ensures Rank(rs, rs[j].key) == j
  {
    var init := rs[..|rs| - 1];
    LessIrreflexive(rs[j].key);
    if j < |init| {
      LessAsymmetric(rs[j].key, rs[|rs| - 1].key);
      RankOfPresent(init, j);
    }
  }

  /** A key is in the store exactly when the record at its rank carries it. */
  lemma {:induction false} RankFinds(rs: seq<Record>, k: Bytes)
    requires Sorted(rs)
    ensures k in Contents(rs) <==> Rank(rs, k) < |rs| && rs[Rank(rs, k)].key == k
    ensures k in Contents(rs) ==> Contents(rs)[k] == rs[Rank(rs, k)].value
  {
    RankSplits(rs, k);
    ContentsOfSorted(rs);
    if k in Contents(rs) {
      var j :| 0 <= j < |rs| && rs[j].key == k;
      RankOfPresent(rs, j);
    }
  }

  /** The records below an upper bound are those of the whole store, cut at the bound. */
  lemma ContentsBelow(rs: seq<Record>, bound: Bytes, k: Bytes)
    requires Sorted(rs) && Less(k, bound)
    ensures Sorted(rs[..Rank(rs, bound)])
    ensures k in Contents(rs) <==> k in Contents(rs[..Rank(rs, bound)])
    ensures k in Contents(rs) ==> Contents(rs)[k] == Contents(rs[..Rank(rs, bound)])[k]
  {
    hide Less, Contents, Rank;
    var n := Rank(rs, bound);
    var cut := rs[..n];
    RankSplits(rs, bound);
    ContentsOfSorted(rs);
    ContentsOfSorted(cut);
    if k in Contents(rs) {
      var i :| 0 <= i < |rs| && rs[i].key == k;
      assert i < n;
      assert cut[i] == rs[i];
    }
    if k in Contents(cut) {
      var i :| 0 <= i < |cut| && cut[i].key == k;
      assert rs[i] == cut[i];
    }
  }

  // ---------------------------------------------------------------- batch, store, iterator

  /** pebble.Batch: the Set operations in the order they were made. */
  class Batch {
    var ops: seq<Record>

    constructor ()
      ensures ops == []
    {
      ops := [];
    }

    method Set(k: Bytes, v: Bytes)
      modifies this
      ensures ops == old(ops) + [Record(k, v)]
    {
      ops := ops + [Record(k, v)];
    }
  }

  class DB {
    var records: seq<Record>

    ghost predicate Valid()
      reads this
    {
      Sorted(records)
    }

    ghost function State(): map<Bytes, Bytes>
      reads this
    {
      Contents(records)
    }

    constructor ()
      ensures Valid() && State() == map[]
    {
      records := [];
    }

    /** Get reads the live store. */
    method Get(k: Bytes) returns (v: Option<Bytes>)
      requires Valid()
      ensures v == if k in State() then Some(State()[k]) else None
    {
      var i := Rank(records, k);
      RankFinds(records, k);
      if i < |records| && records[i].key == k {
        return Some(records[i].value);
      }
      return None;
    }

    /** NewIter, with an optional exclusive upper bound. */
    method NewIter(bound: Option<Bytes>) returns (it: Iterator)
      requires Valid()
      ensures fresh(it)
      ensures it.snapshot == if bound.None? then records else records[..Rank(records, bound.value)]
    {
      var snapshot := if bound.None? then records else records[..Rank(records, bound.value)];
      it := new Iterator(snapshot);
    }

    /** Commit applies the batch atomically, in order. */
    method Commit(b: Batch)
      requires Valid()
      modifies this
      ensures Valid() && State() == old(State()) + Contents(b.ops)
    {
      var rs, i := records, 0;
      while i < |b.ops|
        invariant 0 <= i <= |b.ops|
        invariant Sorted(rs) && Contents(rs) == old(State()) + Contents(b.ops[..i])
      {
        hide *;
        PutKeepsSorted(rs, b.ops[i]);
        PutUpdatesContents(rs, b.ops[i]);
        ContentsOfSnoc(b.ops[..i], b.ops[i]);
        assert b.ops[..i] + [b.ops[i]] == b.ops[..i + 1];
        rs := Put(rs, b.ops[i]);
        i := i + 1;
      }
      assert b.ops[..i] == b.ops;
      records := rs;
    }
  }

  /** Comparer.Split of the prefix engines: the prefix is the first 33 bytes. */
  function Split(k: Bytes): Bytes {
    if |k| >= 33 then k[..33] else k
  }

  /** pebble.Iterator over the records that were present when it was made. */
  class Iterator {
    const snapshot: seq<Record>
    var pos: int
    var mode: Option<Bytes>  // the prefix that SeekPrefixGE confines the iterator to

    constructor (snapshot: seq<Record>)
      ensures this.snapshot == snapshot
    {
      this.snapshot := snapshot;
      pos, mode := -1, None;
    }

    predicate Valid()
      reads this
    {
      0 <= pos < |snapshot| && (mode.Some? ==> Split(snapshot[pos].key) == mode.value)
    }

    function Key(): Bytes
      requires Valid()
      reads this
    {
      snapshot[pos].key
    }

    function Value(): Bytes
      requires Valid()
      reads this
    {
      snapshot[pos].value
    }

    /** The first record at or above `k`. */
    method SeekGE(k: Bytes) returns (valid: bool)
      modifies this
      ensures pos == Rank(snapshot, k) && mode == None && valid == Valid()
    {
      pos, mode := Rank(snapshot, k), None;
      valid := Valid();
    }

    /** The last record below `k`. */
    method SeekLT(k: Bytes) returns (valid: bool)
      modifies this
      ensures pos == Rank(snapshot, k) - 1 && mode == None && valid == Valid()
    {
      pos, mode := Rank(snapshot, k) - 1, None;
      valid := Valid();
    }

    /** The first record at or above `k`, if it shares the prefix of `k`. */
    method SeekPrefixGE(k: Bytes) returns (valid: bool)
      modifies this
      ensures pos == Rank(snapshot, k) && mode == Some(Split(k)) && valid == Valid()
    {
      pos, mode := Rank(snapshot, k), Some(Split(k));
      valid := Valid();
    }

    method Last() returns (valid: bool)
      modifies this
      ensures pos == |snapshot| - 1 && mode == None && valid == Valid()
    {
      pos, mode := |snapshot| - 1, None;
      valid := Valid();
    }

    method Next() returns (valid: bool)
      requires Valid()
      modifies this
      ensures pos == old(pos) + 1 && mode == old(mode) && valid == Valid()
    {
      pos := pos + 1;
      valid := Valid();
    }

    method Prev() returns (valid: bool)
      requires Valid()
      modifies this
      ensures pos == old(pos) - 1 && mode == old(mode) && valid == Valid()
    {
      pos := pos - 1;
      valid := Valid();
    }
  }
}
