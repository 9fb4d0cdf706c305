/** Linear probing with an odd step in a table whose size is a power of two. */
module Probing {

  const STEP := 19
  const U32 := 0x1_0000_0000

  function Pow2(k: nat): (p: nat)
    ensures p > 0
  {
    if k == 0 then 1 else 2 * Pow2(k - 1)
  }

  /** The slot of round `j` for a key with hash `h`. */
  function Slot(h: int, j: nat, k: nat): (s: nat)
    ensures s < Pow2(k)
  {
    (h + STEP * j) % Pow2(k)
  }

  // ------------------------------------------------------------------ arithmetic

  lemma ModUnique(t: int, z: int, p: int)
    requires 0 <= t < p
    ensures (t + p * z) % p == t
  {
    var y := t + p * z;
    var q, r := y / p, y % p;
    assert y == p * q + r;
    assert p * (q - z) == p * q - p * z;
    if q != z { Growth(p, q - z); }
  }

  lemma Growth(p: int, n: int)
    requires p > 0 && n != 0
    ensures p * n >= p || p * n <= -p
  {
  }

  lemma ModShift(x: int, z: int, p: int)
    requires p > 0
    ensures (x + p * z) % p == x % p
  {
    assert x + p * z == x % p + p * (x / p + z);
    ModUnique(x % p, x / p + z, p);
  }

  lemma {:induction false} Pow2Split(k: nat, n: nat)
    requires k <= n
    ensures Pow2(n) == Pow2(k) * Pow2(n - k)
    decreases n
  {
    if k < n {
      Pow2Split(k, n - 1);
      Pow2Step(n);
      Pow2Step(n - k);
      hide Pow2;
      Associate(Pow2(k), 2, Pow2(n - 1 - k));
      Associate(2, Pow2(k), Pow2(n - 1 - k));
    }
  }

  lemma Pow2Step(k: nat)
    requires k > 0
    ensures Pow2(k) == 2 * Pow2(k - 1)
  {
  }

  lemma Pow2Grows(a: nat, b: nat)
    requires a <= b
    ensures Pow2(a) <= Pow2(b)
  {
  }

  lemma Pow2OfU32()
    ensures Pow2(32) == U32
  {
    assert Pow2(8) == 256;
    Pow2Split(8, 16);
    Pow2Split(16, 32);
  }

  /** A wrap at 32 bits does not change a slot, so a reader in C and a builder in Python agree. */
  lemma WrapKeepsSlot(h: int, k: nat)
    requires k <= 32
    ensures (h % U32) % Pow2(k) == h % Pow2(k)
  {
    Pow2OfU32();
    Pow2Split(k, 32);
    ModOfProduct(h, Pow2(k), Pow2(32 - k));
  }

  lemma ModOfProduct(h: int, a: nat, b: nat)
    requires a > 0 && b > 0
    ensures a * b > 0 && (h % (a * b)) % a == h % a
  {
    var n := a * b;
    assert n > 0;
    var q := h / n;
    assert n * q == a * (b * q);
    assert h % n == h + a * (-(b * q));
    ModShift(h, -(b * q), a);
  }

  // ------------------------------------------------------------------ every slot is on every probe path

  /** From an inverse of the step for tables of size `p` to one for the double size. */
  lemma DoubleInverse(x: nat, m: int, p: nat) returns (y: nat, n: int)
    requires STEP * x == 1 + p * m
    ensures STEP * y == 1 + 2 * p * n
  {
    if m % 2 == 0 {
      y, n := x, m / 2;
      Halve(p, m, n);
    } else {
      y, n := x + p, (m + STEP) / 2;
      Halve(p, m + STEP, n);
      Distribute(p, m, STEP);
    }
  }

  lemma Halve(p: int, m: int, half: int)
    requires m == 2 * half
    ensures p * m == 2 * p * half
  {
  }

  lemma Distribute(p: int, a: int, b: int)
    ensures p * (a + b) == p * a + p * b && p * (a - b) == p * a - p * b
  {
  }

  lemma Associate(a: int, b: int, c: int)
    ensures a * (b * c) == (a * b) * c && a * b == b * a
  {
  }

  /** An inverse of the step: 19 times it is one more than a multiple of the table size. */
  lemma {:induction false} StepInverse(k: nat) returns (x: nat, m: int)
    ensures STEP * x == 1 + Pow2(k) * m
  {
    if k == 0 {
      x, m := 0, -1;
    } else {
      x, m := StepInverse(k - 1);
      x, m := DoubleInverse(x, m, Pow2(k - 1));
    }
  }

  /** Going `d * x` rounds of the step, less `q` turns, is going `d` slots, less whole turns. */
  lemma RoundsToSlots(d: int, x: int, m: int, p: int, q: int)
    requires STEP * x == 1 + p * m
    ensures STEP * (d * x - p * q) == d + p * (d * m - STEP * q)
  {
    Associate(STEP, d, x);
    Associate(d, STEP, x);
    Distribute(d, 1, p * m);
    Associate(d, p, m);
    Associate(p, d, m);
    Distribute(p, d * m, STEP * q);
    Associate(p, STEP, q);
    Associate(STEP, p, q);
  }

  lemma DivMod(a: int, p: nat) returns (q: int)
    requires p > 0
    ensures a % p == a - p * q && 0 <= a % p < p
  {
    q := a / p;
  }

  /** The step is odd, so the probe path of any hash comes to any slot within one turn. */
  lemma ProbeReaches(h: int, k: nat, slot: nat) returns (j: nat)
    requires slot < Pow2(k)
    ensures j < Pow2(k) && Slot(h, j, k) == slot
  {
    hide Pow2;
    var p := Pow2(k);
    var x, m := StepInverse(k);
    var d := slot - h;
    var q := DivMod(d * x, p);
    j := (d * x) % p;
    RoundsToSlots(d, x, m, p, q);
    ModUnique(slot, d * m - STEP * q, p);
  }

  // ------------------------------------------------------------------ the table is never full

  ghost predicate Distinct<T(!new)>(s: seq<T>) {
    forall i, j :: 0 <= i < j < |s| ==> s[i] != s[j]
  }

  lemma {:induction false} DistinctCount(s: seq<int>, n: nat)
    requires Distinct(s) && forall v <- s :: 0 <= v < n
    ensures |s| <= n
    decreases n
  {
    if s != [] {
      if n - 1 in s {
        var i :| 0 <= i < |s| && s[i] == n - 1;
        var t := s[..i] + s[i + 1..];
        assert forall v <- t :: v in s && v != n - 1;
        DistinctCount(t, n - 1);
      } else {
        assert s[0] in s;
        DistinctCount(s, n - 1);
      }
    }
  }
}
