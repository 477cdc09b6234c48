/**
 The bucket hash of `HashMap.hash`: a polynomial in the key's UTF-16 code units with multiplier
 31, reduced modulo the capacity after every code unit.

 The source computes in double-precision floating point; every intermediate value is below
 `31 * capacity + 65536`, which is exact for any capacity below 2^48, so integers model it.
 */
module Hashing {

  /** A UTF-16 code unit, the value `charCodeAt` returns. */
  type CodeUnit = c: nat | c < 0x1_0000

  /** A key: the code units of a JavaScript string. */
  type Key = seq<CodeUnit>

  /** The multiplier of the polynomial hash. */
  const Multiplier: nat := 31

  /** `hash(key)`: folds the code units left to right, reducing modulo `capacity` at each step. */
  function Hash(key: Key, capacity: nat): (h: nat)
    requires capacity >= 1
    ensures h < capacity
    ensures |key| == 0 ==> h == 0
  {
    if |key| == 0 then 0
    else (Multiplier * Hash(key[..|key| - 1], capacity) + key[|key| - 1]) % capacity
  }

  /** The UTF-16 code units of one character: itself below 2^16, otherwise a surrogate pair. */
  function CharUnits(c: char): (r: seq<CodeUnit>)
    ensures (c as int) < 0x1_0000 ==> r == [c as int]
    ensures (c as int) >= 0x1_0000 ==> |r| == 2 && 0xD800 <= r[0] < 0xDC00 <= r[1] < 0xE000
  {
    var n := c as int;
    if n < 0x1_0000 then [n]
    else [0xD800 + (n - 0x1_0000) / 0x400, 0xDC00 + (n - 0x1_0000) % 0x400]
  }

  /** The code units of a string, the sequence `charCodeAt` indexes. */
  function CodeUnits(s: string): (r: Key)
    ensures |r| >= |s|
    ensures (forall i :: 0 <= i < |s| ==> (s[i] as int) < 0x1_0000) ==>
              |r| == |s| && forall i :: 0 <= i < |s| ==> r[i] == s[i] as int
  {
    if |s| == 0 then [] else CharUnits(s[0]) + CodeUnits(s[1..])
  }

  /** Distinct strings of characters below 2^16 have distinct code units. */
  lemma CodeUnitsInjective(s: string, t: string)
    requires forall i :: 0 <= i < |s| ==> (s[i] as int) < 0x1_0000
    requires forall i :: 0 <= i < |t| ==> (t[i] as int) < 0x1_0000
    requires CodeUnits(s) == CodeUnits(t)
    ensures s == t
  {
    assert |s| == |t|;
    forall i | 0 <= i < |s| ensures s[i] == t[i] {
      assert CodeUnits(s)[i] == CodeUnits(t)[i];
    }
  }

  /** The unreduced polynomial: the sum of `key[i] * 31^(|key|-1-i)`. */
  function Polynomial(key: Key): nat {
    if |key| == 0 then 0
    else Multiplier * Polynomial(key[..|key| - 1]) + key[|key| - 1]
  }

  /** A non-zero multiple of a positive number is at least that number in size. */
  lemma MultipleBounds(a: int, m: int)
    requires m >= 1
    ensures a >= 1 ==> a * m >= m
    ensures a <= -1 ==> a * m <= -m
  {
  }

  /** The remainder is the only value in `[0, m)` that differs from `x` by a multiple of `m`. */
  lemma ModUnique(x: int, q: int, r: int, m: int)
    requires m >= 1 && 0 <= r < m && x == q * m + r
    ensures x % m == r
  {
    var q0 := x / m;
    assert x == q0 * m + x % m;
    assert (q - q0) * m == x % m - r;
    MultipleBounds(q - q0, m);
  }

  /** Adding a multiple of the modulus does not change the remainder. */
  lemma ModAddMultiple(t: nat, m: nat, y: nat)
    requires m >= 1
    ensures (t * m + y) % m == y % m
  {
    var d := y / m;
    assert y == d * m + y % m;
    assert t * m + y == (t + d) * m + y % m;
    ModUnique(t * m + y, t + d, y % m, m);
  }

  /** Reducing the running value before multiplying does not change the final remainder. */
  lemma ReduceEarly(a: nat, x: nat, c: nat, m: nat)
    requires m >= 1
    ensures (a * (x % m) + c) % m == (a * x + c) % m
  {
    var q := x / m;
    assert x == q * m + x % m;
    assert a * x + c == (a * q) * m + (a * (x % m) + c);
    ModAddMultiple(a * q, m, a * (x % m) + c);
  }

  /**
   Reducing after every code unit gives the same bucket as reducing the whole polynomial once
   at the end: the per-step reduction only keeps the running value small.
   */
  lemma {:induction false} HashIsReducedPolynomial(key: Key, capacity: nat)
    requires capacity >= 1
    ensures Hash(key, capacity) == Polynomial(key) % capacity
    decreases |key|
  {
    if |key| > 0 {
      var prefix := key[..|key| - 1];
      HashIsReducedPolynomial(prefix, capacity);
      ReduceEarly(Multiplier, Polynomial(prefix), key[|key| - 1], capacity);
    }
  }
}
