/** The Merkle Tree Hash of section 2.1 of RFC 6962, and the compact range that the
    stores append to. SHA-256 is not interpreted: everything holds for any `Hasher`. */
module Merkle {
  import opened ByteStrings

  type Hash = h: Bytes | |h| == 32 witness seq(32, _ => 0)

  /** rfc6962.DefaultHasher: HashLeaf, HashChildren and EmptyRoot. */
  datatype Hasher = Hasher(leaf: Bytes -> Hash, children: (Hash, Hash) -> Hash, empty: Hash)

  // ---------------------------------------------------------------- powers of two

  predicate IsPow2(n: nat) {
    n == 1 || (n > 1 && n % 2 == 0 && IsPow2(n / 2))
  }

  lemma {:induction false} Pow2Gap(a: nat, b: nat)
    requires IsPow2(a) && IsPow2(b) && a < b
    ensures 2 * a <= b
  {
    if a > 1 {
      Pow2Gap(a / 2, b / 2);
    }
  }

  /** The largest power of two not above `n`: the highest set bit of `n`. */
  function Top(n: nat): (k: nat)
    requires n >= 1
    ensures IsPow2(k) && k <= n < 2 * k
  {
    if n == 1 then 1 else 2 * Top(n / 2)
  }

  /** The `k` of RFC 6962: the largest power of two below `n`. */
  function SplitPoint(n: nat): (k: nat)
    requires n >= 2
    ensures IsPow2(k) && k < n <= 2 * k
  {
    if n == 2 then 1 else 2 * SplitPoint((n + 1) / 2)
  }

  lemma {:induction false} TopIsUnique(n: nat, k: nat)
    requires n >= 1 && IsPow2(k) && k <= n < 2 * k
    ensures Top(n) == k
  {
    if Top(n) < k { Pow2Gap(Top(n), k); }
    if k < Top(n) { Pow2Gap(k, Top(n)); }
  }

  lemma {:induction false} SplitPointIsUnique(n: nat, k: nat)
    requires n >= 2 && IsPow2(k) && k < n <= 2 * k
    ensures SplitPoint(n) == k
  {
    if SplitPoint(n) < k { Pow2Gap(SplitPoint(n), k); }
    if k < SplitPoint(n) { Pow2Gap(k, SplitPoint(n)); }
  }

  lemma {:induction false} ExpIsPow2(w: nat)
    ensures IsPow2(Exp2(w)) && Exp2(0) == 1 && Exp2(w + 1) == 2 * Exp2(w)
  {
    if w > 0 {
      ExpIsPow2(w - 1);
    }
  }

  /** bits.OnesCount64 */
  function PopCount(n: nat): nat {
    if n == 0 then 0 else n % 2 + PopCount(n / 2)
  }

  lemma {:induction false} PopCountOfTop(k: nat, m: nat)
    requires IsPow2(k) && m < k
    ensures PopCount(k + m) == 1 + PopCount(m)
  {
    if k > 1 {
      assert (k + m) / 2 == k / 2 + m / 2;
      PopCountOfTop(k / 2, m / 2);
    }
  }

  function Exp2(w: nat): nat {
    if w == 0 then 1 else 2 * Exp2(w - 1)
  }

  lemma {:induction false} PopCountBound(n: nat, w: nat)
    requires n < Exp2(w)
    ensures PopCount(n) <= w
  {
    if w > 0 && n > 0 {
      PopCountBound(n / 2, w - 1);
    }
  }

  /** A 64-bit size needs at most 64 frontier hashes. */
  lemma PopCountOfU64(n: U64)
    ensures PopCount(n) <= 64
  {
    assert Exp2(16) == 0x1_0000 by {
      assert Exp2(4) == 16;
      assert Exp2(8) == 256;
      assert Exp2(12) == 4096;
    }
    assert Exp2(32) == 0x1_0000_0000 by {
      assert Exp2(20) == 0x10_0000;
      assert Exp2(24) == 0x100_0000;
      assert Exp2(28) == 0x1000_0000;
    }
    assert Exp2(48) == 0x1_0000_0000_0000 by {
      assert Exp2(36) == 0x10_0000_0000;
      assert Exp2(40) == 0x100_0000_0000;
      assert Exp2(44) == 0x1000_0000_0000;
    }
    assert Exp2(64) == TWO_64 by {
      assert Exp2(52) == 0x10_0000_0000_0000;
      assert Exp2(56) == 0x100_0000_0000_0000;
      assert Exp2(60) == 0x1000_0000_0000_0000;
    }
    PopCountBound(n, 64);
  }

  // ---------------------------------------------------------------- tree hash and frontier

  /** MTH of section 2.1 of RFC 6962. */
  function TreeHash(h: Hasher, d: seq<Bytes>): Hash {
    if |d| == 0 then h.empty
    else if |d| == 1 then h.leaf(d[0])
    else
      var k := SplitPoint(|d|);
      h.children(TreeHash(h, d[..k]), TreeHash(h, d[k..]))
  }

  /** The tree hashes of the perfect subtrees that the binary digits of |d| cut `d` into,
      largest first. This says what the hashes of a compact range mean. */
  function Frontier(h: Hasher, d: seq<Bytes>): seq<Hash> {
    if d == [] then []
    else
      var k := Top(|d|);
      [TreeHash(h, d[..k])] + Frontier(h, d[k..])
  }

  lemma {:induction false} FrontierLength(h: Hasher, d: seq<Bytes>)
    ensures |Frontier(h, d)| == PopCount(|d|)
  {
    if d != [] {
      var k := Top(|d|);
      FrontierLength(h, d[k..]);
      PopCountOfTop(k, |d| - k);
    }
  }

  /** Binary-counter append: merge `x` upwards through the low one bits of `n`. */
  function Carry(h: Hasher, n: nat, hs: seq<Hash>, x: Hash): (r: seq<Hash>)
    requires |hs| == PopCount(n)
  {
    if n % 2 == 0 then hs + [x]
    else Carry(h, n / 2, hs[..|hs| - 1], h.children(hs[|hs| - 1], x))
  }

  /** Right-to-left fold of the frontier. */
  function Fold(h: Hasher, hs: seq<Hash>): Hash
    requires hs != []
  {
    if |hs| == 1 then hs[0] else h.children(hs[0], Fold(h, hs[1..]))
  }

  /** A perfect subtree on the left is untouched by the carry, until the carry reaches it. */
  lemma {:induction false} CarryPastPerfectSubtree(h: Hasher, k: nat, m: nat, a: Hash, hs: seq<Hash>, x: Hash)
    requires IsPow2(k) && m < k && |hs| == PopCount(m)
    ensures PopCount(k + m) == 1 + |hs|
    ensures m + 1 < k ==> Carry(h, k + m, [a] + hs, x) == [a] + Carry(h, m, hs, x)
    ensures m + 1 == k ==>
      var c := Carry(h, m, hs, x);
      |c| == 1 && Carry(h, k + m, [a] + hs, x) == [h.children(a, c[0])]
  {
    PopCountOfTop(k, m);
    var s := [a] + hs;
    if k == 1 {
      assert s[..0] == [];
    } else {
      assert (k + m) / 2 == k / 2 + m / 2;
      if m % 2 == 0 {
        assert s + [x] == [a] + (hs + [x]);
      } else {
        assert s[..|s| - 1] == [a] + hs[..|hs| - 1];
        CarryPastPerfectSubtree(h, k / 2, m / 2, a, hs[..|hs| - 1], h.children(hs[|hs| - 1], x));
      }
    }
  }

  lemma {:induction false} FrontierOfPerfectTree(h: Hasher, d: seq<Bytes>)
    requires IsPow2(|d|)
    ensures Frontier(h, d) == [TreeHash(h, d)]
  {
    TopIsUnique(|d|, |d|);
    assert d[..|d|] == d && d[|d|..] == [];
  }

  /** The tree hash of a log cut at the highest set bit of its length. */
  lemma {:induction false} FrontierStep(h: Hasher, a: seq<Bytes>, b: seq<Bytes>)
    requires IsPow2(|a|) && |b| < |a|
    ensures Frontier(h, a + b) == [TreeHash(h, a)] + Frontier(h, b)
  {
    var d := a + b;
    TopIsUnique(|d|, |a|);
    assert d[..|a|] == a && d[|a|..] == b;
  }

  lemma {:induction false} TreeHashOfHalves(h: Hasher, a: seq<Bytes>, b: seq<Bytes>)
    requires IsPow2(|a|) && 0 < |b| <= |a|
    ensures TreeHash(h, a + b) == h.children(TreeHash(h, a), TreeHash(h, b))
  {
    var d := a + b;
    SplitPointIsUnique(|d|, |a|);
    assert d[..|a|] == a && d[|a|..] == b;
  }

  /** Appending a leaf by binary-counter carry yields the frontier of the longer log. */
  lemma {:induction false} AppendKeepsFrontier(h: Hasher, d: seq<Bytes>, x: Bytes)
    ensures |Frontier(h, d)| == PopCount(|d|)
    ensures Carry(h, |d|, Frontier(h, d), h.leaf(x)) == Frontier(h, d + [x])
  {
    hide *;
    FrontierLength(h, d);
    if d == [] {
      FirstLeaf(h, x);
      assert d + [x] == [x];
    } else {
      var k := Top(|d|);
      var (a, b) := (d[..k], d[k..]);
      AppendKeepsFrontier(h, b, x);
      AppendBehindPerfectTree(h, a, b, b + [x], h.leaf(x));
      assert d == a + b && d + [x] == a + (b + [x]);
    }
  }

  lemma {:induction false} FirstLeaf(h: Hasher, x: Bytes)
    ensures Frontier(h, []) == [] && PopCount(0) == 0
    ensures Carry(h, 0, [], h.leaf(x)) == Frontier(h, [x])
  {
    FrontierOfPerfectTree(h, [x]);
  }

  lemma {:induction false} AppendBehindPerfectTree(h: Hasher, a: seq<Bytes>, b: seq<Bytes>, c: seq<Bytes>, leaf: Hash)
    requires IsPow2(|a|) && |b| < |a| && |c| == |b| + 1
    requires |Frontier(h, b)| == PopCount(|b|)
    requires Carry(h, |b|, Frontier(h, b), leaf) == Frontier(h, c)
    ensures |Frontier(h, a + b)| == PopCount(|a| + |b|)
    ensures Carry(h, |a| + |b|, Frontier(h, a + b), leaf) == Frontier(h, a + c)
  {
    hide Frontier, TreeHash, PopCount, IsPow2;
    var (t, hs) := (TreeHash(h, a), Frontier(h, b));
    assert Frontier(h, a + b) == [t] + hs by { FrontierStep(h, a, b); }
    CarryPastPerfectSubtree(h, |a|, |b|, t, hs, leaf);
    FrontierAfterAppend(h, a, c);
  }

  lemma {:induction false} FrontierAfterAppend(h: Hasher, a: seq<Bytes>, c: seq<Bytes>)
    requires IsPow2(|a|) && 0 < |c| <= |a|
    ensures Frontier(h, c) != []
    ensures Frontier(h, a + c) ==
            if |c| < |a| then [TreeHash(h, a)] + Frontier(h, c)
            else [h.children(TreeHash(h, a), Frontier(h, c)[0])]
  {
    assert Frontier(h, c) != [];
    if |c| < |a| {
      FrontierStep(h, a, c);
    } else {
      var d := a + c;
      assert Frontier(h, c) == [TreeHash(h, c)] by { FrontierOfPerfectTree(h, c); }
      assert TreeHash(h, d) == h.children(TreeHash(h, a), TreeHash(h, c)) by { TreeHashOfHalves(h, a, c); }
      assert Frontier(h, d) == [TreeHash(h, d)] by {
        assert |d| / 2 == |a|;
        FrontierOfPerfectTree(h, d);
      }
    }
  }

  /** Folding the frontier from the right gives the RFC 6962 root. */
  lemma {:induction false} FoldIsTreeHash(h: Hasher, d: seq<Bytes>)
    requires d != []
    ensures Frontier(h, d) != [] && Fold(h, Frontier(h, d)) == TreeHash(h, d)
  {
    var k := Top(|d|);
    if |d| == k {
      FrontierOfPerfectTree(h, d);
    } else {
      FoldIsTreeHash(h, d[k..]);
      SplitPointIsUnique(|d|, k);
      assert Frontier(h, d)[1..] == Frontier(h, d[k..]);
    }
  }

  // ---------------------------------------------------------------- logs of indices

  /** The leaf data of an index log: each index as 8 big-endian bytes. */
  function Leaves(log: seq<U64>): (d: seq<Bytes>)
    ensures |d| == |log|
  {
    seq(|log|, i requires 0 <= i < |log| => BE64(log[i]))
  }

  /** The sub-root of a key: the RFC 6962 tree hash over its log. */
  function LogRoot(h: Hasher, log: seq<U64>): Hash {
    TreeHash(h, Leaves(log))
  }

  /** The recursion of section 2.1 of RFC 6962, on the log itself, leaves one root only: those
      of no index and of one, */
  lemma LogRootOfOne(h: Hasher, x: U64)
    ensures LogRoot(h, []) == h.empty
    ensures LogRoot(h, [x]) == h.leaf(BE64(x))
  {
    assert Leaves([x]) == [BE64(x)] && Leaves([]) == [];
    hide BE64;
  }

  /** and that of a log behind a power of two of its indices. */
  lemma LogRootOfHalves(h: Hasher, a: seq<U64>, b: seq<U64>, w: nat)
    requires |a| == Exp2(w) && 0 < |b| <= |a|
    ensures LogRoot(h, a + b) == h.children(LogRoot(h, a), LogRoot(h, b))
  {
    hide TreeHash, BE64, IsPow2, Exp2;
    ExpIsPow2(w);
    TreeHashOfHalves(h, Leaves(a), Leaves(b));
    assert Leaves(a + b) == Leaves(a) + Leaves(b);
  }

  /** The value of a compact range that begins at 0. */
  datatype Range = Range(size: nat, hashes: seq<Hash>) {
    predicate Valid() {
      size < TWO_64 && |hashes| == PopCount(size)
    }
  }

  function RangeOf(h: Hasher, log: seq<U64>): (r: Range) {
    Range(|log|, Frontier(h, Leaves(log)))
  }

  lemma RangeOfIsValid(h: Hasher, log: seq<U64>)
    requires |log| < TWO_64
    ensures RangeOf(h, log).Valid()
  {
    FrontierLength(h, Leaves(log));
  }

  /** compact.Range with begin 0, and the operations on it that the stores use. */
  class CompactRange {
    const h: Hasher
    var size: nat
    var hashes: seq<Hash>

    function Value(): Range
      reads this
    {
      Range(size, hashes)
    }

    constructor (h: Hasher, r: Range)
      ensures this.h == h && Value() == r
    {
      this.h := h;
      size, hashes := r.size, r.hashes;
    }

    /** Append one leaf hash: merge equal-sized subtrees along the right border. */
    method Append(leafHash: Hash)
      requires Value().Valid() && size + 1 < TWO_64
      modifies this
      ensures size == old(size) + 1
      ensures hashes == Carry(h, old(size), old(hashes), leafHash)
    {
      var seed, n, idx := leafHash, size, |hashes|;
      assert hashes[..idx] == hashes;
      while n % 2 == 1
        invariant 0 <= idx <= |hashes| && idx == PopCount(n)
        invariant Carry(h, n, hashes[..idx], seed) == Carry(h, size, hashes, leafHash)
        invariant hashes == old(hashes) && size == old(size)
        decreases n
      {
        idx := idx - 1;
        assert hashes[..idx + 1][..idx] == hashes[..idx];
        seed := h.children(hashes[idx], seed);
        n := n / 2;
      }
      hashes := hashes[..idx] + [seed];
      size := size + 1;
    }

    /** Append the leaf hash of one index of a log. */
    method AppendIndex(idx: U64, ghost log: seq<U64>)
      requires Value() == RangeOf(h, log) && |log| + 1 < TWO_64
      modifies this
      ensures Value() == RangeOf(h, log + [idx])
    {
      AppendKeepsFrontier(h, Leaves(log), BE64(idx));
      assert Leaves(log + [idx]) == Leaves(log) + [BE64(idx)];
      Append(h.leaf(BE64(idx)));
    }

    /** GetRootHash: nothing for an empty range. */
    method GetRootHash() returns (root: Option<Hash>)
      requires Value().Valid()
      ensures root == if hashes == [] then None else Some(Fold(h, hashes))
    {
      var ln := |hashes|;
      if ln == 0 {
        return None;
      }
      var hash := hashes[ln - 1];
      var i := ln - 2;
      while i >= 0
        invariant -1 <= i <= ln - 2
        invariant hash == Fold(h, hashes[i + 1..])
      {
        hash := h.children(hashes[i], hash);
        assert hashes[i..][1..] == hashes[i + 1..];
        i := i - 1;
      }
      return Some(hash);
    }

    /** The tail shared by every GetSubRoot: the empty root for an empty range, else the root hash. */
    method SubRoot(ghost log: seq<U64>) returns (root: Option<Hash>)
      requires Value() == RangeOf(h, log) && |log| < TWO_64
      ensures root == Some(LogRoot(h, log))
    {
      RangeOfIsValid(h, log);
      if size == 0 {
        return Some(h.empty);
      }
      FoldIsTreeHash(h, Leaves(log));
      root := GetRootHash();
    }
  }
}
