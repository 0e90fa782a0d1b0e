/** Byte strings, big-endian integers and the lexicographic order that the store's sorted maps use. */
module Bytes {

  type byte = b: int | 0 <= b < 256

  type Bytes = seq<byte>

  const U16 := 0x1_0000
  const U32 := 0x1_0000_0000
  const U32_MAX: nat := 0xFFFF_FFFF
  const U48 := 0x1_0000_0000_0000
  const U64 := 0x1_0000_0000_0000_0000

  // ----- big-endian integers

  function Pow256(n: nat): (p: nat)
    ensures p > 0
  {
    if n == 0 then 1 else 256 * Pow256(n - 1)
  }

  /** The low `n` bytes of `v`, most significant first. */
  function ToBE(v: nat, n: nat): (s: Bytes)
    ensures |s| == n
  {
    if n == 0 then [] else ToBE(v / 256, n - 1) + [v % 256]
  }

  function FromBE(s: Bytes): nat {
    if s == [] then 0 else FromBE(s[..|s| - 1]) * 256 + s[|s| - 1]
  }

  lemma {:induction false} FromToBE(v: nat, n: nat)
    requires v < Pow256(n)
    ensures FromBE(ToBE(v, n)) == v
  {
    if n > 0 {
      assert v / 256 < Pow256(n - 1);
      FromToBE(v / 256, n - 1);
      assert ToBE(v, n)[..n - 1] == ToBE(v / 256, n - 1);
    }
  }

  lemma {:induction false} ToFromBE(s: Bytes)
    ensures ToBE(FromBE(s), |s|) == s
    ensures FromBE(s) < Pow256(|s|)
  {
    if s != [] {
      ToFromBE(s[..|s| - 1]);
    }
  }

  lemma Powers()
    ensures Pow256(4) == U32 && Pow256(8) == U64
  {
    assert Pow256(2) == U16;
    assert Pow256(4) == 256 * 256 * Pow256(2);
    assert Pow256(6) == 256 * 256 * Pow256(4);
    assert Pow256(8) == 256 * 256 * Pow256(6);
  }

  function U32BE(v: nat): (s: Bytes)
    ensures |s| == 4
  {
    ToBE(v, 4)
  }

  function U64BE(v: nat): (s: Bytes)
    ensures |s| == 8
  {
    ToBE(v, 8)
  }

  /** Byte `i` of `n` holds the digit of weight 256 ^ (n - 1 - i). */
  lemma {:induction false} BigEndian(v: nat, n: nat, i: nat)
    requires i < n
    ensures ToBE(v, n)[i] == v / Pow256(n - 1 - i) % 256
  {
    if i < n - 1 {
      BigEndian(v / 256, n - 1, i);
      DivideTwice(v, Pow256(n - 2 - i));
    }
  }

  lemma DivideTwice(v: nat, p: nat)
    requires p > 0
    ensures v / 256 / p == v / (256 * p)
  {
    var q := v / 256 / p;
    var r := v - 256 * p * q;
    assert v / 256 == p * q + v / 256 % p;
    assert v == 256 * (p * q + v / 256 % p) + v % 256;
    assert r == 256 * (v / 256 % p) + v % 256;
    assert 0 <= r < 256 * p;
    Quotient(v, 256 * p, q, r);
  }

  lemma Quotient(v: nat, d: nat, q: nat, r: nat)
    requires d > 0 && r < d && v == d * q + r
    ensures v / d == q && v % d == r
  {
    var q', r' := v / d, v % d;
    assert d * q + r == d * q' + r';
    Multiple(d, q, q');
    Multiple(d, q', q);
  }

  lemma Multiple(d: nat, a: int, b: int)
    requires d > 0
    ensures a < b ==> d * b >= d * a + d
  {
    if a < b {
      var c := b - a - 1;
      assert d * (a + 1 + c) == d * a + d + d * c;
      assert d * c >= 0;
    }
  }

  lemma U32RoundTrip(v: nat)
    requires v < U32
    ensures FromBE(U32BE(v)) == v
  {
    Powers();
    FromToBE(v, 4);
  }

  lemma U64RoundTrip(v: nat)
    requires v < U64
    ensures FromBE(U64BE(v)) == v
  {
    Powers();
    FromToBE(v, 8);
  }

  // ----- lexicographic order

  predicate Less(a: Bytes, b: Bytes) {
    b != [] && (a == [] || a[0] < b[0] || (a[0] == b[0] && Less(a[1..], b[1..])))
  }

  lemma {:induction false} LessTrichotomy(a: Bytes, b: Bytes)
    ensures Less(a, b) || a == b || Less(b, a)
    ensures !(Less(a, b) && Less(b, a))
    ensures a == b ==> !Less(a, b)
  {
    if a != [] && b != [] && a[0] == b[0] {
      LessTrichotomy(a[1..], b[1..]);
      assert a == [a[0]] + a[1..] && b == [b[0]] + b[1..];
    }
  }

  lemma {:induction false} LessTransitive(a: Bytes, b: Bytes, c: Bytes)
    requires Less(a, b) && Less(b, c)
    ensures Less(a, c)
  {
    if a != [] && a[0] == b[0] == c[0] {
      LessTransitive(a[1..], b[1..], c[1..]);
    }
  }

  /** The order decides at the first difference, and a proper prefix comes first. */
  lemma {:induction false} LessIff(a: Bytes, b: Bytes)
    ensures Less(a, b) <==> exists i :: FirstDifference(a, b, i)
  {
    if a == [] || b == [] || a[0] != b[0] {
      if Less(a, b) {
        assert FirstDifference(a, b, 0);
      } else {
        forall i ensures !FirstDifference(a, b, i) {
          assert i > 0 && i <= |a| && i <= |b| ==> a[..i][0] == a[0] && b[..i][0] == b[0];
        }
      }
    } else {
      LessIff(a[1..], b[1..]);
      if Less(a, b) {
        var i :| FirstDifference(a[1..], b[1..], i);
        assert a[..i + 1] == [a[0]] + a[1..][..i] && b[..i + 1] == [b[0]] + b[1..][..i];
        assert FirstDifference(a, b, i + 1);
      } else {
        forall i ensures !FirstDifference(a, b, i) {
          if FirstDifference(a, b, i) {
            assert a[1..][..i - 1] == a[..i][1..] && b[1..][..i - 1] == b[..i][1..];
            assert FirstDifference(a[1..], b[1..], i - 1);
          }
        }
      }
    }
  }

  /** `a` and `b` agree before `i`, where `b` goes on and `a` ends or has the smaller byte. */
  ghost predicate FirstDifference(a: Bytes, b: Bytes, i: int) {
    0 <= i <= |a| && i < |b| && a[..i] == b[..i] && (i == |a| || a[i] < b[i])
  }

  // ----- the ascending listing of a finite set of keys

  predicate Ascending(ks: seq<Bytes>) {
    forall i, j :: 0 <= i < j < |ks| ==> Less(ks[i], ks[j])
  }

  predicate IsLeast(k: Bytes, s: set<Bytes>) {
    k in s && forall x :: x in s && x != k ==> Less(k, x)
  }

  lemma {:induction false} LeastExists(s: set<Bytes>)
    requires s != {}
    ensures exists k :: IsLeast(k, s)
  {
    var x :| x in s;
    if s == {x} {
      assert IsLeast(x, s);
    } else {
      LeastExists(s - {x});
      var y :| IsLeast(y, s - {x});
      LessTrichotomy(x, y);
      if Less(x, y) {
        forall z | z in s && z != x ensures Less(x, z) {
          if z != y {
            LessTransitive(x, y, z);
          }
        }
        assert IsLeast(x, s);
      } else {
        assert IsLeast(y, s);
      }
    }
  }

  lemma LeastUnique(s: set<Bytes>)
    ensures forall k, l :: IsLeast(k, s) && IsLeast(l, s) ==> k == l
  {
    forall k, l | IsLeast(k, s) && IsLeast(l, s) ensures k == l {
      LessTrichotomy(k, l);
    }
  }

  function Least(s: set<Bytes>): (k: Bytes)
    requires s != {}
    ensures IsLeast(k, s)
  {
    LeastExists(s);
    LeastUnique(s);
    var k :| k in s && IsLeast(k, s);
    k
  }

  /** The order in which a sorted map iterates its keys. */
  function SortedKeys(s: set<Bytes>): (ks: seq<Bytes>)
    ensures forall k :: k in ks <==> k in s
    ensures Ascending(ks)
    ensures |ks| == |s|
  {
    if s == {} then [] else
      var k := Least(s);
      [k] + SortedKeys(s - {k})
  }

  /** Ascending listings are determined by the set they list. */
  lemma {:induction false} AscendingUnique(a: seq<Bytes>, b: seq<Bytes>)
    requires Ascending(a) && Ascending(b)
    requires forall k :: k in a <==> k in b
    ensures a == b
  {
    assert a != [] ==> a[0] in a;
    assert b != [] ==> b[0] in b;
    if a != [] && b != [] {
      assert forall i :: 0 < i < |a| ==> Less(a[0], a[i]);
      assert forall i :: 0 < i < |b| ==> Less(b[0], b[i]);
      LessTrichotomy(a[0], b[0]);
      assert a[0] == b[0];
      TailElements(a, b);
      TailElements(b, a);
      AscendingUnique(a[1..], b[1..]);
      assert a == [a[0]] + a[1..] && b == [b[0]] + b[1..];
    }
  }

  lemma TailElements(a: seq<Bytes>, b: seq<Bytes>)
    requires a != [] && b != [] && a[0] == b[0] && Ascending(a)
    requires forall k :: k in a ==> k in b
    ensures forall k :: k in a[1..] ==> k in b[1..]
  {
    forall k | k in a[1..] ensures k in b[1..] {
      var i :| 1 <= i < |a| && a[i] == k;
      LessTrichotomy(a[0], a[i]);
      assert a[i] in a;
      var j :| 0 <= j < |b| && b[j] == k;
      assert j != 0;
      assert b[1..][j - 1] == k;
    }
  }

  // ----- splitting equal concatenations

  lemma SplitEqual<T>(a: seq<T>, x: seq<T>, b: seq<T>, y: seq<T>)
    requires a + x == b + y && |a| == |b|
    ensures a == b && x == y
  {
    assert a == (a + x)[..|a|] && b == (b + y)[..|b|];
    assert x == (a + x)[|a|..] && y == (b + y)[|b|..];
  }

  lemma U64Injective(m: nat, n: nat)
    requires m < U64 && n < U64 && U64BE(m) == U64BE(n)
    ensures m == n
  {
    U64RoundTrip(m);
    U64RoundTrip(n);
  }

  lemma Assoc(a: Bytes, b: Bytes, c: Bytes)
    ensures (a + b) + c == a + (b + c)
  {
  }

  lemma Regroup(a: Bytes, b: Bytes, c: Bytes, d: Bytes)
    ensures a + b + c + d == a + (b + (c + d))
  {
  }

  // ----- parts one after the other

  function Flat(parts: seq<Bytes>): Bytes {
    if parts == [] then [] else Flat(parts[..|parts| - 1]) + parts[|parts| - 1]
  }

  lemma {:induction false} FlatFirst(parts: seq<Bytes>)
    requires parts != []
    ensures Flat(parts) == parts[0] + Flat(parts[1..])
  {
    var n := |parts| - 1;
    if n == 0 {
      assert parts[..0] == [] && parts[1..] == [];
    } else {
      FlatFirst(parts[..n]);
      assert parts[..n][1..] == parts[1..][..n - 1] && parts[1..][n - 1] == parts[n];
      Assoc(parts[0], Flat(parts[..n][1..]), parts[n]);
    }
  }
}
