/** Byte strings as Go and Pebble see them: bounded integers, lexicographic order,
    fixed-width big-endian numbers, and the successor of a prefix. */
module ByteStrings {
  type Byte = x: int | 0 <= x < 256
  type Bytes = seq<Byte>

  const TWO_64: nat := 0x1_0000_0000_0000_0000
  const MAX_U64: nat := 0xFFFF_FFFF_FFFF_FFFF

  type U16 = x: int | 0 <= x < 0x1_0000
  type U64 = x: int | 0 <= x < 0x1_0000_0000_0000_0000

  datatype Option<+T> = None | Some(value: T)

  predicate HasPrefix(k: Bytes, p: Bytes) {
    |p| <= |k| && k[..|p|] == p
  }

  // ---------------------------------------------------------------- order

  /** bytes.Compare(a, b) < 0 */
  predicate Less(a: Bytes, b: Bytes) {
    if b == [] then false
    else if a == [] then true
    else a[0] < b[0] || (a[0] == b[0] && Less(a[1..], b[1..]))
  }

  /** bytes.Compare: the first difference decides, and a proper prefix comes first. */
  lemma {:induction false} LessAtFirstDifference(a: Bytes, b: Bytes)
    ensures Less(a, b) <==>
      exists i :: 0 <= i <= |a| && i < |b| && a[..i] == b[..i] && (i == |a| || a[i] < b[i])
  {
    assert a[..0] == b[..0];
    forall i | 0 < i <= |a| && i < |b| && a[..i] == b[..i] ensures a[0] == b[0] {
      assert a[..i][0] == b[..i][0];
    }
    if a != [] && b != [] && a[0] == b[0] {
      var (x, y) := (a[1..], b[1..]);
      LessAtFirstDifference(x, y);
      assert a == [a[0]] + x && b == [b[0]] + y;
      if i :| 0 <= i <= |x| && i < |y| && x[..i] == y[..i] && (i == |x| || x[i] < y[i]) {
        assert a[..i + 1] == [a[0]] + x[..i] == [b[0]] + y[..i] == b[..i + 1];
      }
      if i :| 0 <= i <= |a| && i < |b| && a[..i] == b[..i] && (i == |a| || a[i] < b[i]) {
        assert x[..i - 1] == a[..i][1..] == b[..i][1..] == y[..i - 1];
      }
    }
  }

  lemma {:induction false} LessIrreflexive(a: Bytes)
    ensures !Less(a, a)
  {
    if a != [] {
      LessIrreflexive(a[1..]);
    }
  }

  lemma {:induction false} LessTransitive(a: Bytes, b: Bytes, c: Bytes)
    requires Less(a, b) && Less(b, c)
    ensures Less(a, c)
  {
    if a != [] && a[0] == b[0] == c[0] {
      LessTransitive(a[1..], b[1..], c[1..]);
    }
  }

  lemma {:induction false} LessTotal(a: Bytes, b: Bytes)
    ensures a == b || Less(a, b) || Less(b, a)
  {
    if a != [] && b != [] && a[0] == b[0] {
      LessTotal(a[1..], b[1..]);
      assert a == [a[0]] + a[1..] && b == [b[0]] + b[1..];
    }
  }

  lemma LessAsymmetric(a: Bytes, b: Bytes)
    requires Less(a, b)
    ensures !Less(b, a) && a != b
  {
    LessIrreflexive(a);
    if Less(b, a) {
      LessTransitive(a, b, a);
    }
  }

  /** `a <= b` and `b < c`, or `a < b` and `b <= c`, give `a < c`. */
  lemma LessMixed(a: Bytes, b: Bytes, c: Bytes)
    ensures !Less(b, a) && Less(b, c) ==> Less(a, c)
    ensures Less(a, b) && !Less(c, b) ==> Less(a, c)
  {
    LessTotal(a, b);
    LessTotal(b, c);
    if Less(a, b) && Less(b, c) {
      LessTransitive(a, b, c);
    }
  }

  lemma {:induction false} CommonPrefixCancels(p: Bytes, a: Bytes, b: Bytes)
    ensures Less(p + a, p + b) <==> Less(a, b)
  {
    if p == [] {
      assert p + a == a && p + b == b;
    } else {
      CommonPrefixCancels(p[1..], a, b);
      assert (p + a)[1..] == p[1..] + a && (p + b)[1..] == p[1..] + b;
    }
  }

  /** A key that carries the prefix is never below it. */
  lemma PrefixedNotBelow(k: Bytes, p: Bytes)
    requires HasPrefix(k, p)
    ensures !Less(k, p)
  {
    assert k == p + k[|p|..] && p == p + [];
    CommonPrefixCancels(p, k[|p|..], []);
  }

  // ---------------------------------------------------------------- big-endian numbers

  function Pow256(w: nat): (r: nat)
    ensures r > 0
  {
    if w == 0 then 1 else 256 * Pow256(w - 1)
  }

  lemma Pow256Eight()
    ensures Pow256(8) == TWO_64
    ensures Pow256(2) == 0x1_0000
  {
    assert Pow256(2) == 256 * 256;
    assert Pow256(4) == 256 * (256 * Pow256(2));
    assert Pow256(6) == 256 * (256 * Pow256(4));
    assert Pow256(8) == 256 * (256 * Pow256(6));
  }

  /** binary.BigEndian.PutUintN, for a field of `w` bytes. */
  function BE(v: nat, w: nat): (b: Bytes)
    ensures |b| == w
  {
    if w == 0 then [] else BE(v / 256, w - 1) + [v % 256]
  }

  /** binary.BigEndian.UintN */
  function FromBE(b: Bytes): nat {
    if b == [] then 0 else FromBE(b[..|b| - 1]) * 256 + b[|b| - 1]
  }

  lemma {:induction false} DecodeEncode(v: nat, w: nat)
    requires v < Pow256(w)
    ensures FromBE(BE(v, w)) == v
  {
    if w > 0 {
      DecodeEncode(v / 256, w - 1);
      assert BE(v, w)[..w - 1] == BE(v / 256, w - 1);
    }
  }

  lemma {:induction false} EncodeDecode(b: Bytes)
    ensures FromBE(b) < Pow256(|b|)
    ensures BE(FromBE(b), |b|) == b
  {
    if b != [] {
      var i := b[..|b| - 1];
      EncodeDecode(i);
      assert b == i + [b[|b| - 1]];
    }
  }

  lemma {:induction false} LessAtLastByte(a: Bytes, b: Bytes, x: Byte, y: Byte)
    requires |a| == |b|
    ensures Less(a + [x], b + [y]) <==> Less(a, b) || (a == b && x < y)
  {
    if a != [] {
      LessAtLastByte(a[1..], b[1..], x, y);
      assert (a + [x])[1..] == a[1..] + [x] && (b + [y])[1..] == b[1..] + [y];
      assert a == [a[0]] + a[1..] && b == [b[0]] + b[1..];
    }
  }

  /** Big-endian encodings of one width sort as the numbers they encode. */
  lemma {:induction false} BigEndianIsMonotone(a: nat, b: nat, w: nat)
    requires a < Pow256(w) && b < Pow256(w)
    ensures Less(BE(a, w), BE(b, w)) <==> a < b
  {
    if w > 0 {
      var a', b' := BE(a / 256, w - 1), BE(b / 256, w - 1);
      BigEndianIsMonotone(a / 256, b / 256, w - 1);
      DecodeEncode(a / 256, w - 1);
      DecodeEncode(b / 256, w - 1);
      LessAtLastByte(a', b', a % 256, b % 256);
    }
  }

  function BE64(v: U64): (b: Bytes)
    ensures |b| == 8
  {
    BE(v, 8)
  }

  /** The eight bytes of a 64-bit number, the highest first. */
  lemma BigEndianDigits(v: U64)
    ensures BE64(v) == [v / 0x100_0000_0000_0000, v / 0x1_0000_0000_0000 % 256, v / 0x100_0000_0000 % 256,
                        v / 0x1_0000_0000 % 256, v / 0x100_0000 % 256, v / 0x1_0000 % 256, v / 256 % 256, v % 256]
  {
    BEFourMore(v, 4);
    BEFourMore(v / 0x1_0000_0000, 0);
    HighDigits(v);
    hide BE;
    var (a, b) := (BE(v / 0x1_0000_0000, 4), [v / 0x100_0000 % 256, v / 0x1_0000 % 256, v / 256 % 256, v % 256]);
    assert BE64(v) == a + b;
  }

  lemma HighDigits(v: U64)
    ensures var c := v / 0x1_0000_0000;
      && c / 0x100_0000 % 256 == v / 0x100_0000_0000_0000
      && c / 0x1_0000 == v / 0x1_0000_0000_0000
      && c / 256 == v / 0x100_0000_0000
  {
  }

  lemma BEFourMore(v: nat, w: nat)
    ensures BE(v, w + 4) ==
            BE(v / 0x1_0000_0000, w) + [v / 0x100_0000 % 256, v / 0x1_0000 % 256, v / 256 % 256, v % 256]
    ensures BE(v, 0) == []
  {
    BETwoMore(v, w + 2);
    BETwoMore(v / 0x1_0000, w);
    hide BE;
    assert v / 0x1_0000 / 0x1_0000 == v / 0x1_0000_0000 && v / 0x1_0000 / 256 == v / 0x100_0000;
  }

  lemma BETwoMore(v: nat, w: nat)
    ensures BE(v, w + 2) == BE(v / 0x1_0000, w) + [v / 256 % 256, v % 256]
    ensures BE(v, 0) == []
  {
    assert BE(v, w + 2) == BE(v / 256, w + 1) + [v % 256];
    assert BE(v / 256, w + 1) == BE(v / 256 / 256, w) + [v / 256 % 256];
  }

  /** The two bytes of a 16-bit number. */
  lemma BE16Digits(v: nat)
    ensures BE(v, 2) == [v / 256 % 256, v % 256]
  {
    assert BE(v / 256, 1) == BE(v / 256 / 256, 0) + [v / 256 % 256];
  }

  lemma BE64RoundTrip(v: U64)
    ensures FromBE(BE64(v)) == v
  {
    Pow256Eight();
    DecodeEncode(v, 8);
  }

  lemma FromBE64Fits(b: Bytes)
    requires |b| == 8
    ensures FromBE(b) < TWO_64 && BE64(FromBE(b)) == b
  {
    Pow256Eight();
    EncodeDecode(b);
  }

  // ---------------------------------------------------------------- prefix successor

  /** The least byte string above every string that starts with `p`, if there is one. */
  function UpperBound(p: Bytes): Option<Bytes> {
    if p == [] then None
    else
      var (init, last) := (p[..|p| - 1], p[|p| - 1]);
      if last == 255 then UpperBound(init) else Some(init + [last + 1])
  }

  lemma {:induction false} NoUpperBound(p: Bytes)
    ensures UpperBound(p).None? <==> forall i :: 0 <= i < |p| ==> p[i] == 255
  {
    if p != [] {
      NoUpperBound(p[..|p| - 1]);
      if p[|p| - 1] == 255 && UpperBound(p).None? {
        forall i | 0 <= i < |p| ensures p[i] == 255 {
          assert i < |p| - 1 ==> p[i] == p[..|p| - 1][i];
        }
      }
    }
  }

  lemma {:induction false} BetweenLastBytes(q: Bytes, x: Byte, k: Bytes)
    requires x < 255
    ensures !Less(k, q + [x]) && Less(k, q + [x + 1]) <==> HasPrefix(k, q + [x])
  {
    if q == [] {
      assert q + [x] == [x] && q + [x + 1] == [x + 1];
      if k != [] {
        assert [x][1..] == [] && [x + 1][1..] == [];
        assert k[..1] == [k[0]];
      }
    } else if k != [] {
      assert (q + [x])[1..] == q[1..] + [x] && (q + [x + 1])[1..] == q[1..] + [x + 1];
      BetweenLastBytes(q[1..], x, k[1..]);
      if HasPrefix(k[1..], q[1..] + [x]) && k[0] == q[0] {
        assert k[..|q| + 1] == [k[0]] + k[1..][..|q|] == q + [x];
      }
      if HasPrefix(k, q + [x]) {
        assert k[1..][..|q|] == k[..|q| + 1][1..] == q[1..] + [x];
        assert k[0] == k[..|q| + 1][0] == q[0];
      }
    }
  }

  /** The keys `k` with `p <= k < UpperBound(p)` are exactly the keys that start with `p`. */
  lemma {:induction false} UpperBoundIsExact(p: Bytes, k: Bytes)
    requires UpperBound(p).Some?
    ensures !Less(k, p) && Less(k, UpperBound(p).value) <==> HasPrefix(k, p)
  {
    var q, x := p[..|p| - 1], p[|p| - 1];
    assert p == q + [x];
    if x < 255 {
      BetweenLastBytes(q, x, k);
    } else {
      UpperBoundIsExact(q, k);
      CommonPrefixCancels(q, [], [x]);
      assert q + [] == q;
      LessMixed(q, p, k);
      LessTotal(k, p);
      assert HasPrefix(k, p) ==> k[..|q|] == k[..|p|][..|q|] == q;
      if HasPrefix(k, q) {
        var r := k[|q|..];
        assert k == q + r;
        CommonPrefixCancels(q, r, [x]);
        assert Less(r, [x]) <==> r == [] || r[0] < 255 by {
          if r != [] { assert [x][1..] == []; }
        }
        if r != [] && r[0] == 255 {
          assert k[..|p|] == q + [r[0]];
        }
        if HasPrefix(k, p) {
          assert k[|q|] == k[..|p|][|q|] == x;
        }
      }
      if !Less(k, p) {
        assert !Less(k, q) by {
          if Less(k, q) { LessTransitive(k, q, p); }
        }
      }
    }
  }

  /** prefixUpperBound: carries through a private copy of the prefix, from its last byte. */
  method PrefixUpperBound(prefix: Bytes) returns (r: Option<Bytes>)
    ensures r == UpperBound(prefix)
    ensures r.None? <==> forall i :: 0 <= i < |prefix| ==> prefix[i] == 255
    ensures r.Some? ==> forall k: Bytes ::
      HasPrefix(k, prefix) <==> !Less(k, prefix) && Less(k, r.value)
  {
    var limit := new Byte[|prefix|](i requires 0 <= i < |prefix| => prefix[i]);
    NoUpperBound(prefix);
    forall k: Bytes | UpperBound(prefix).Some?
      ensures HasPrefix(k, prefix) <==> !Less(k, prefix) && Less(k, UpperBound(prefix).value)
    {
      UpperBoundIsExact(prefix, k);
    }
    assert prefix == prefix[..|prefix|];
    var i := |prefix| - 1;
    while i >= 0
      invariant -1 <= i < |prefix|
      invariant limit[..i + 1] == prefix[..i + 1]
      invariant UpperBound(prefix[..i + 1]) == UpperBound(prefix)
    {
      assert limit[i] == limit[..i + 1][i] == prefix[i];
      assert prefix[..i + 1][..i] == prefix[..i];
      assert limit[..i] == prefix[..i];
      var b: int := limit[i];
      limit[i] := (b + 1) % 256;
      if limit[i] != 0 {
        assert limit[..i + 1] == prefix[..i] + [prefix[i] + 1];
        return Some(limit[..i + 1]);
      }
      i := i - 1;
    }
    return None;
  }
}
