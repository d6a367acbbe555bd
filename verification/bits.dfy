/** Non-negative integers as bit strings, the way the hashing code sees them:
    Python's `int.bit_length()`, `bin(v)[2:].zfill(w)` and `int(s, 2)`, and the
    bitwise `^` and `&` of Python ints and JavaScript BigInts on non-negative
    values. Bit strings are `seq<bool>`, most significant bit first. */
module Bits {

  function Max(a: int, b: int): int {
    if a >= b then a else b
  }

  function Pow2(n: nat): (r: nat)
    ensures r >= 1
  {
    if n == 0 then 1 else 2 * Pow2(n - 1)
  }

  lemma {:induction false} Pow2Monotone(m: nat, n: nat)
    requires m <= n
    ensures Pow2(m) <= Pow2(n)
    decreases n
  {
    if m < n {
      Pow2Monotone(m, n - 1);
    }
  }

  /** Python's `v.bit_length()`: the number of binary digits of `v`, 0 for 0. */
  function BitLength(v: nat): (r: nat)
    ensures (v == 0) == (r == 0)
    ensures v < Pow2(r)
    ensures r > 0 ==> Pow2(r - 1) <= v
  {
    if v == 0 then 0 else 1 + BitLength(v / 2)
  }

  /** `BitLength` is the least width that holds `v`. */
  lemma {:induction false} BitLengthLeast(v: nat, n: nat)
    requires v < Pow2(n)
    ensures BitLength(v) <= n
  {
    if BitLength(v) > n {
      Pow2Monotone(n, BitLength(v) - 1);
    }
  }

  /** The padded length of a hash of bit width `w`: at least one digit. */
  function Width(w: nat): (r: nat)
    ensures r >= 1 && r >= w
  {
    if w == 0 then 1 else w
  }

  /** The `n` low-order binary digits of `v`, most significant first. */
  function LowBits(v: nat, n: nat): (r: seq<bool>)
    ensures |r| == n
  {
    if n == 0 then [] else LowBits(v / 2, n - 1) + [v % 2 == 1]
  }

  /** `len(bin(v)[2:].zfill(w))`: `bin(0)` is "0b0", so there is always one digit. */
  function PadLength(v: nat, w: nat): nat {
    Max(w, Max(1, BitLength(v)))
  }

  /** `bin(v)[2:].zfill(w)` as a bit string. */
  function Padded(v: nat, w: nat): (r: seq<bool>)
    ensures |r| == PadLength(v, w)
  {
    LowBits(v, PadLength(v, w))
  }

  /** When `v` fits in `w` bits every padded string has the common length `Width(w)`. */
  lemma PaddedLength(v: nat, w: nat)
    requires BitLength(v) <= Width(w)
    ensures |Padded(v, w)| == Width(w)
  {
  }

  /** `int(s, 2)` read from a bit string, most significant bit first. */
  function FromBits(bs: seq<bool>): nat {
    if |bs| == 0 then 0
    else 2 * FromBits(bs[..|bs| - 1]) + (if bs[|bs| - 1] then 1 else 0)
  }

  lemma {:induction false} FromBitsBound(bs: seq<bool>)
    ensures FromBits(bs) < Pow2(|bs|)
  {
    if |bs| > 0 {
      FromBitsBound(bs[..|bs| - 1]);
    }
  }

  /** Reading back the low bits of a value that fits gives the value. */
  lemma {:induction false} FromLowBits(v: nat, n: nat)
    requires v < Pow2(n)
    ensures FromBits(LowBits(v, n)) == v
  {
    if n > 0 {
      FromLowBits(v / 2, n - 1);
      assert LowBits(v, n)[..n - 1] == LowBits(v / 2, n - 1);
    }
  }

  /** Writing out the value of a bit string at its own length gives the string back. */
  lemma {:induction false} LowBitsFromBits(bs: seq<bool>)
    ensures LowBits(FromBits(bs), |bs|) == bs
  {
    if |bs| > 0 {
      var init := bs[..|bs| - 1];
      LowBitsFromBits(init);
      var v := FromBits(bs);
      assert v / 2 == FromBits(init);
      assert (v % 2 == 1) == bs[|bs| - 1];
      assert bs == init + [bs[|bs| - 1]];
    }
  }

  /** `int(bin(v)[2:].zfill(w), 2) == v`. */
  lemma PaddedRoundTrip(v: nat, w: nat)
    ensures FromBits(Padded(v, w)) == v
  {
    Pow2Monotone(BitLength(v), PadLength(v, w));
    FromLowBits(v, PadLength(v, w));
  }

  /** Number of positions at which two equally long bit strings differ. */
  function Mismatches(s: seq<bool>, t: seq<bool>): (r: nat)
    requires |s| == |t|
    ensures r <= |s|
  {
    if |s| == 0 then 0
    else Mismatches(s[..|s| - 1], t[..|t| - 1]) + (if s[|s| - 1] != t[|t| - 1] then 1 else 0)
  }

  lemma {:induction false} MismatchesConcat(a: seq<bool>, b: seq<bool>, c: seq<bool>, d: seq<bool>)
    requires |a| == |c| && |b| == |d|
    ensures Mismatches(a + b, c + d) == Mismatches(a, c) + Mismatches(b, d)
    decreases |b|
  {
    if |b| > 0 {
      var b', d' := b[..|b| - 1], d[..|d| - 1];
      assert (a + b)[..|a + b| - 1] == a + b';
      assert (c + d)[..|c + d| - 1] == c + d';
      MismatchesConcat(a, b', c, d');
    } else {
      assert a + b == a && c + d == c;
    }
  }

  /** Python's `a ^ b` on non-negative ints (and JavaScript's on BigInts). */
  function Xor(a: nat, b: nat): nat
    decreases a + b
  {
    if a == 0 && b == 0 then 0
    else 2 * Xor(a / 2, b / 2) + (if a % 2 != b % 2 then 1 else 0)
  }

  /** `a & b` on non-negative values. */
  function And(a: nat, b: nat): nat
    decreases a + b
  {
    if a == 0 && b == 0 then 0
    else 2 * And(a / 2, b / 2) + (if a % 2 == 1 && b % 2 == 1 then 1 else 0)
  }

  /** The number of set bits of `v`. */
  function PopCount(v: nat): nat {
    if v == 0 then 0 else v % 2 + PopCount(v / 2)
  }

  lemma {:induction false} PopCountZero(v: nat)
    ensures PopCount(v) == 0 <==> v == 0
  {
    if v != 0 && v % 2 == 0 {
      PopCountZero(v / 2);
    }
  }

  lemma {:induction false} XorZero(a: nat, b: nat)
    ensures Xor(a, b) == 0 <==> a == b
    decreases a + b
  {
    if !(a == 0 && b == 0) {
      XorZero(a / 2, b / 2);
    }
  }

  lemma {:induction false} XorSymmetric(a: nat, b: nat)
    ensures Xor(a, b) == Xor(b, a)
    decreases a + b
  {
    if !(a == 0 && b == 0) {
      XorSymmetric(a / 2, b / 2);
    }
  }

  /** Xor-ing twice with the same key restores the value. */
  lemma {:induction false} XorInvolution(a: nat, k: nat)
    ensures Xor(Xor(a, k), k) == a
    decreases a + k
  {
    if !(a == 0 && k == 0) {
      XorInvolution(a / 2, k / 2);
      var x := Xor(a, k);
      assert x / 2 == Xor(a / 2, k / 2);
      assert x % 2 == (if a % 2 != k % 2 then 1 else 0);
    }
  }

  /** The mismatch count of two `n`-bit strings is the popcount of the values' xor. */
  lemma {:induction false} LowBitsDistance(a: nat, b: nat, n: nat)
    requires a < Pow2(n) && b < Pow2(n)
    ensures Mismatches(LowBits(a, n), LowBits(b, n)) == PopCount(Xor(a, b))
  {
    if n > 0 {
      var la, lb := LowBits(a / 2, n - 1), LowBits(b / 2, n - 1);
      assert LowBits(a, n)[..n - 1] == la;
      assert LowBits(b, n)[..n - 1] == lb;
      var d := if a % 2 != b % 2 then 1 else 0;
      assert Mismatches(LowBits(a, n), LowBits(b, n)) == Mismatches(la, lb) + d;
      LowBitsDistance(a / 2, b / 2, n - 1);
      PopCountXorStep(a, b);
    }
  }

  /** The lowest bit of `a ^ b` is set exactly when the lowest bits differ. */
  lemma PopCountXorStep(a: nat, b: nat)
    ensures PopCount(Xor(a, b)) == PopCount(Xor(a / 2, b / 2)) + (if a % 2 != b % 2 then 1 else 0)
  {
    if !(a == 0 && b == 0) {
      var x := Xor(a, b);
      var d := if a % 2 != b % 2 then 1 else 0;
      assert x == 2 * Xor(a / 2, b / 2) + d;
      assert x % 2 == d && x / 2 == Xor(a / 2, b / 2);
    }
  }

  /** Comparing the zero-padded digit strings counts exactly the set bits of `a ^ b`. */
  lemma PaddedDistance(a: nat, b: nat, w: nat)
    requires BitLength(a) <= w && BitLength(b) <= w
    ensures Mismatches(Padded(a, w), Padded(b, w)) == PopCount(Xor(a, b))
  {
    Pow2Monotone(BitLength(a), Width(w));
    Pow2Monotone(BitLength(b), Width(w));
    LowBitsDistance(a, b, Width(w));
  }

  /** Kernighan's step: `v & (v - 1)` clears exactly the lowest set bit. */
  lemma {:induction false} ClearLowestSetBit(v: nat)
    requires v > 0
    ensures And(v, v - 1) < v
    ensures PopCount(And(v, v - 1)) == PopCount(v) - 1
  {
    if v % 2 == 1 {
      AndLowBitClear(v);
    } else {
      ClearLowestSetBit(v / 2);
      assert (v - 1) / 2 == v / 2 - 1;
      assert And(v, v - 1) == 2 * And(v / 2, v / 2 - 1);
      PopCountDouble(And(v / 2, v / 2 - 1));
      PopCountDouble(v / 2);
    }
  }

  lemma AndLowBitClear(v: nat)
    requires v % 2 == 1
    ensures And(v, v - 1) == v - 1
  {
    AndSelf(v / 2);
    assert (v - 1) / 2 == v / 2;
  }

  lemma {:induction false} AndSelf(a: nat)
    ensures And(a, a) == a
  {
    if a != 0 {
      AndSelf(a / 2);
    }
  }

  lemma PopCountDouble(v: nat)
    ensures PopCount(2 * v) == PopCount(v)
  {
  }

  /** A bit string as a 0/1 array. */
  function BitInts(bs: seq<bool>): (r: seq<int>)
    ensures |r| == |bs|
    ensures forall i :: 0 <= i < |bs| ==> r[i] == if bs[i] then 1 else 0
  {
    if |bs| == 0 then [] else [if bs[0] then 1 else 0] + BitInts(bs[1..])
  }
}
