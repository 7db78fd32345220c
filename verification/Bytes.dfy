/** Byte strings: little-endian numbers inside them, overwriting a stretch, and the order of keys. */
module Bytes {

  type Byte = x: int | 0 <= x < 256

  // ---- Numbers ----

  function Put16(v: nat): (b: seq<Byte>)
    requires v < 0x10000
    ensures |b| == 2
  {
    [v % 256, v / 256]
  }

  function Get16(b: seq<Byte>, i: nat): (v: nat)
    requires i + 2 <= |b|
    ensures v < 0x10000
  {
    b[i] as int + 256 * b[i + 1] as int
  }

  lemma GetPut16(b: seq<Byte>, i: nat, v: nat)
    requires i + 2 <= |b| && v < 0x10000 && b[i..i + 2] == Put16(v)
    ensures Get16(b, i) == v
  {
    assert b[i] == b[i..i + 2][0] && b[i + 1] == b[i..i + 2][1];
  }

  function Put32(v: nat): (b: seq<Byte>)
    requires v < 0x1_0000_0000
    ensures |b| == 4
  {
    Put16(v % 0x10000) + Put16(v / 0x10000)
  }

  function Get32(b: seq<Byte>, i: nat): (v: nat)
    requires i + 4 <= |b|
    ensures v < 0x1_0000_0000
  {
    Get16(b, i) + 0x10000 * Get16(b, i + 2)
  }

  lemma GetPut32(b: seq<Byte>, i: nat, v: nat)
    requires i + 4 <= |b| && v < 0x1_0000_0000 && b[i..i + 4] == Put32(v)
    ensures Get32(b, i) == v
  {
    assert b[i..i + 2] == b[i..i + 4][..2] == Put16(v % 0x10000);
    assert b[i + 2..i + 4] == b[i..i + 4][2..] == Put16(v / 0x10000);
    GetPut16(b, i, v % 0x10000);
    GetPut16(b, i + 2, v / 0x10000);
  }

  // ---- Overwriting ----

  /** `b` with `x` written at `at`. */
  function Splice(b: seq<Byte>, at: nat, x: seq<Byte>): (r: seq<Byte>)
    requires at + |x| <= |b|
    ensures |r| == |b|
  {
    b[..at] + x + b[at + |x|..]
  }

  lemma SpliceBytes(b: seq<Byte>, at: nat, x: seq<Byte>)
    requires at + |x| <= |b|
    ensures forall k :: 0 <= k < |b| ==> Splice(b, at, x)[k] == if at <= k < at + |x| then x[k - at] else b[k]
  {
  }

  // ---- The order of keys ----

  /** Lexicographic order. */
  predicate Less(a: seq<Byte>, b: seq<Byte>) {
    b != [] && (a == [] || a[0] < b[0] || (a[0] == b[0] && Less(a[1..], b[1..])))
  }

  lemma {:induction false} Irreflexive(a: seq<Byte>)
    ensures !Less(a, a)
  {
    if a != [] {
      Irreflexive(a[1..]);
    }
  }

  lemma {:induction false} Trichotomy(a: seq<Byte>, b: seq<Byte>)
    ensures Less(a, b) || Less(b, a) || a == b
    ensures !(Less(a, b) && Less(b, a))
  {
    if a != [] && b != [] {
      Trichotomy(a[1..], b[1..]);
      if a[0] == b[0] && a[1..] == b[1..] {
        assert a == [a[0]] + a[1..] == b;
      }
    }
  }

  lemma {:induction false} Transitive(a: seq<Byte>, b: seq<Byte>, c: seq<Byte>)
    requires Less(a, b) && Less(b, c)
    ensures Less(a, c)
  {
    if a != [] && a[0] == b[0] == c[0] {
      Transitive(a[1..], b[1..], c[1..]);
    }
  }

  /** Not above, then below. */
  lemma AtMostLess(a: seq<Byte>, b: seq<Byte>, c: seq<Byte>)
    requires !Less(b, a) && Less(b, c)
    ensures Less(a, c)
  {
    Trichotomy(a, b);
    if Less(a, b) {
      Transitive(a, b, c);
    }
  }

  lemma LessAtMost(a: seq<Byte>, b: seq<Byte>, c: seq<Byte>)
    requires Less(a, b) && !Less(c, b)
    ensures Less(a, c)
  {
    Trichotomy(b, c);
    if Less(b, c) {
      Transitive(a, b, c);
    }
  }

  lemma AtMostAtMost(a: seq<Byte>, b: seq<Byte>, c: seq<Byte>)
    requires !Less(b, a) && !Less(c, b)
    ensures !Less(c, a)
  {
    if Less(c, a) {
      LessAtMost(c, a, b);
    }
  }

  /** Keys with a common beginning compare as what follows it. */
  lemma {:induction false} CommonPrefix(a: seq<Byte>, b: seq<Byte>, n: nat)
    requires n <= |a| && n <= |b| && a[..n] == b[..n]
    ensures Less(a, b) <==> Less(a[n..], b[n..])
    ensures a == b <==> a[n..] == b[n..]
  {
    assert a == a[..n] + a[n..] && b == b[..n] + b[n..];
    if n > 0 {
      assert a[0] == a[..n][0] && b[0] == b[..n][0];
      assert a[1..][..n - 1] == a[..n][1..] && b[1..][..n - 1] == b[..n][1..];
      CommonPrefix(a[1..], b[1..], n - 1);
      assert a[1..][n - 1..] == a[n..] && b[1..][n - 1..] == b[n..];
    }
  }

  /** The keys agree for `n` bytes; then the first one ends, or has the lower byte. */
  predicate BelowAt(a: seq<Byte>, b: seq<Byte>, n: nat) {
    && n <= |a| && n <= |b| && a[..n] == b[..n]
    && ((n == |a| && n < |b|) || (n < |a| && n < |b| && a[n] < b[n]))
  }

  /** What the order is, without recursion. */
  lemma LessMeans(a: seq<Byte>, b: seq<Byte>)
    ensures Less(a, b) <==> exists n :: BelowAt(a, b, n)
  {
    var n := FirstDifference(a, b);
    CommonPrefix(a, b, n);
    if Less(a, b) {
      assert BelowAt(a, b, n);
    }
    if m: nat :| BelowAt(a, b, m) {
      CommonPrefix(a, b, m);
    }
  }

  /** How many bytes two keys have in common. */
  function FirstDifference(a: seq<Byte>, b: seq<Byte>): (n: nat)
    ensures n <= |a| && n <= |b| && a[..n] == b[..n]
    ensures n < |a| && n < |b| ==> a[n] != b[n]
  {
    if a == [] || b == [] || a[0] != b[0] then 0
    else
      var n := 1 + FirstDifference(a[1..], b[1..]);
      assert a[..n] == [a[0]] + a[1..][..n - 1] && b[..n] == [b[0]] + b[1..][..n - 1];
      n
  }

  /** Compares two keys as the storage code does: the bytes they have in common, then the lengths. */
  method CompareKeys(a: seq<Byte>, b: seq<Byte>) returns (c: int)
    ensures c < 0 <==> Less(a, b)
    ensures c == 0 <==> a == b
    ensures c > 0 <==> Less(b, a)
    ensures c < 0 <==> exists n :: BelowAt(a, b, n)
    ensures c > 0 <==> exists n :: BelowAt(b, a, n)
  {
    LessMeans(a, b);
    LessMeans(b, a);
    Trichotomy(a, b);
    Irreflexive(a);
    var n := if |a| < |b| then |a| else |b|;
    var i := 0;
    while i < n && a[i] == b[i]
      invariant 0 <= i <= n && a[..i] == b[..i]
    {
      i := i + 1;
    }
    CommonPrefix(a, b, i);
    CommonPrefix(b, a, i);
    if i < n {
      return a[i] as int - b[i] as int;
    }
    return if |a| < |b| then -1 else if |a| > |b| then 1 else 0;
  }

  /** Never decreasing. */
  predicate Ascending(keys: seq<seq<Byte>>) {
    forall i, j :: 0 <= i < j < |keys| ==> !Less(keys[j], keys[i])
  }

  /** Where a key belongs in an ascending list: everything before is below it, nothing from there on. */
  predicate FirstAtLeast(keys: seq<seq<Byte>>, key: seq<Byte>, at: nat) {
    && at <= |keys|
    && (forall i :: 0 <= i < at ==> Less(keys[i], key))
    && (forall i :: at <= i < |keys| ==> !Less(keys[i], key))
  }

  lemma FirstUnique(keys: seq<seq<Byte>>, key: seq<Byte>, p: nat, q: nat)
    requires FirstAtLeast(keys, key, p) && FirstAtLeast(keys, key, q)
    ensures p == q
  {
    var atP := if p < |keys| then keys[p] else [];
    var atQ := if q < |keys| then keys[q] else [];
  }

  /** One comparison in an ascending list decides a whole side. */
  lemma Decides(keys: seq<seq<Byte>>, key: seq<Byte>, mid: nat)
    requires Ascending(keys) && mid < |keys|
    ensures Less(keys[mid], key) ==> forall i :: 0 <= i <= mid ==> Less(keys[i], key)
    ensures !Less(keys[mid], key) ==> forall i :: mid <= i < |keys| ==> !Less(keys[i], key)
  {
    if Less(keys[mid], key) {
      forall i | 0 <= i <= mid ensures Less(keys[i], key) {
        if i < mid {
          AtMostLess(keys[i], keys[mid], key);
        }
      }
    } else {
      forall i | mid <= i < |keys| ensures !Less(keys[i], key) {
        if mid < i {
          AtMostAtMost(key, keys[mid], keys[i]);
        }
      }
    }
  }
}
