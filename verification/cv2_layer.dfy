/** The integer parts of the image layer: `hamming_distance` between two hashes
    (ints or arrays), the corner ordering of a detected card outline
    (`order_points`), and the hash-size guard and int/array output of `phash`.
    The image processing itself (resizing, the DCT, the median threshold) is
    outside the model: `phash` receives the thresholded bits as a parameter. */
module Cv2Layer {
  import opened Wrappers
  import opened Bits

  // ---------------------------------------------------------------------------
  // hamming_distance

  /** A hash as `hamming_distance` receives it: a Python int, a numpy array, or a
      value of any other type. */
  datatype Hash = IntHash(v: nat) | ArrayHash(elems: seq<int>) | Unsupported

  /** `np.count_nonzero(a != b)` for arrays of the same length. */
  function CountDifferent(a: seq<int>, b: seq<int>): (r: nat)
    requires |a| == |b|
    ensures r <= |a|
    ensures r == 0 <==> a == b
  {
    if |a| == 0 then 0
    else
      var n := |a| - 1;
      var r := CountDifferent(a[..n], b[..n]) + (if a[n] != b[n] then 1 else 0);
      assert a == a[..n] + [a[n]] && b == b[..n] + [b[n]];
      r
  }

  /** `np.count_nonzero(x != b)` for a one-element array `[x]` broadcast over `b`. */
  function CountDifferentFrom(x: int, b: seq<int>): (r: nat)
    ensures r <= |b|
  {
    if |b| == 0 then 0
    else CountDifferentFrom(x, b[..|b| - 1]) + (if b[|b| - 1] != x then 1 else 0)
  }

  /** numpy broadcasting of two one-dimensional arrays. */
  predicate Broadcastable(m: nat, n: nat) {
    m == n || m == 1 || n == 1
  }

  /** The length of the result of an element-wise operation on two arrays of
      lengths `m` and `n` that broadcast: a one-element operand takes the other's
      length, even when that length is 0. */
  function BroadcastLength(m: nat, n: nat): (r: nat)
    requires Broadcastable(m, n)
    ensures r == m || r == n
    ensures r <= Max(m, n)
    ensures m == 0 || n == 0 ==> r == 0
    ensures m == n ==> r == m
  {
    if m == 1 then n else m
  }

  /** `a != b` on two arrays, counted: numpy broadcasts a one-element array over
      the other, and raises `ValueError` on any other pair of unequal lengths. */
  function ArrayDistance(xs: seq<int>, ys: seq<int>): (r: Result<nat>)
    ensures r.Failure? <==> !Broadcastable(|xs|, |ys|)
    ensures r.Failure? ==> r.error.ValueError?
    ensures r.Success? ==> r.value <= BroadcastLength(|xs|, |ys|)
    ensures |xs| == |ys| ==> r == Success(CountDifferent(xs, ys))
  {
    if |xs| == |ys| then Success(CountDifferent(xs, ys))
    else if |xs| == 1 then Success(CountDifferentFrom(xs[0], ys))
    else if |ys| == 1 then Success(CountDifferentFrom(ys[0], xs))
    else Failure(ValueError("operands could not be broadcast together"))
  }

  /** `hamming_distance(a, b)` as written. Two ints: the set bits of `a ^ b`.
      Two arrays: the positions that differ. An array and an int: the int's
      padded digits become an array of one-character strings, which never equal
      a number (numpy 1.25 and later), so every position of the broadcast result
      counts: none for an empty array, which a one-digit int broadcasts to. The
      int-first branch compares the int itself with that array, likewise unequal
      everywhere. Any other type raises `ValueError`. */
  function HammingDistanceAsWritten(a: Hash, b: Hash): (r: Result<nat>)
    ensures r.Failure? <==> a.Unsupported? || b.Unsupported?
                            || (a.ArrayHash? && b.ArrayHash? && !Broadcastable(|a.elems|, |b.elems|))
                            || (a.ArrayHash? && b.IntHash? && !Broadcastable(|a.elems|, PadLength(b.v, |a.elems|)))
    ensures r.Failure? ==> r.error.ValueError?
    ensures !(a.ArrayHash? && b.IntHash?) && !(a.IntHash? && b.ArrayHash?) ==> r == HammingDistance(a, b)
    ensures r.Success? && a.ArrayHash? && b.IntHash? ==> r.value == BroadcastLength(|a.elems|, PadLength(b.v, |a.elems|))
    ensures r.Success? && a.ArrayHash? && b.IntHash? && |a.elems| == 0 ==> r.value == 0
    ensures a.IntHash? && b.ArrayHash? ==> r == Success(PadLength(a.v, |b.elems|))
  {
    match (a, b)
    case (ArrayHash(xs), IntHash(y)) =>
      var n := PadLength(y, |xs|);
      if Broadcastable(|xs|, n) then Success(BroadcastLength(|xs|, n))
      else Failure(ValueError("operands could not be broadcast together"))
    case (IntHash(x), ArrayHash(ys)) => Success(PadLength(x, |ys|))
    case _ => HammingDistance(a, b)
  }

  /** `hamming_distance(a, b)` as evidently intended: an array and an int are
      compared digit by digit, the int written in binary and zero-padded to the
      array's length; every other pair behaves as written. */
  function HammingDistance(a: Hash, b: Hash): (r: Result<nat>)
    ensures r.Failure? <==> a.Unsupported? || b.Unsupported?
                            || (a.ArrayHash? && b.ArrayHash? && !Broadcastable(|a.elems|, |b.elems|))
                            || (a.ArrayHash? && b.IntHash? && !Broadcastable(|a.elems|, PadLength(b.v, |a.elems|)))
                            || (a.IntHash? && b.ArrayHash? && !Broadcastable(PadLength(a.v, |b.elems|), |b.elems|))
    ensures r.Failure? ==> r.error.ValueError?
    ensures r.Success? && a.ArrayHash? && b.ArrayHash? ==> r.value <= BroadcastLength(|a.elems|, |b.elems|)
  {
    match (a, b)
    case (IntHash(x), IntHash(y)) => Success(PopCount(Xor(x, y)))
    case (ArrayHash(xs), ArrayHash(ys)) => ArrayDistance(xs, ys)
    case (ArrayHash(xs), IntHash(y)) => ArrayDistance(xs, BitInts(Padded(y, |xs|)))
    case (IntHash(x), ArrayHash(ys)) => ArrayDistance(BitInts(Padded(x, |ys|)), ys)
    case _ => Failure(ValueError("Unsupported types"))
  }

  /** As written, an array compared with the int it spells is at distance 2,
      not 0: both digits count as different. */
  lemma MixedDistanceAsWritten()
    ensures HammingDistanceAsWritten(ArrayHash([0, 1]), IntHash(1)) == Success(2)
    ensures HammingDistanceAsWritten(IntHash(1), ArrayHash([0, 1])) == Success(2)
    ensures HammingDistance(ArrayHash([0, 1]), IntHash(1)) == Success(0)
    ensures HammingDistanceAsWritten(ArrayHash([]), IntHash(0)) == Success(0)
    ensures HammingDistanceAsWritten(ArrayHash([]), IntHash(1)) == Success(0)
  {
    assert BitLength(1) == 1;
    assert Padded(1, 2) == [false, true];
    assert BitInts([false, true]) == [0, 1];
  }

  /** With the intended comparison, an array of bits and an int that fits in it
      are as far apart as the int the bits spell and that int, in either order. */
  lemma MixedDistanceIntended(bits: seq<bool>, y: nat)
    requires |bits| >= 1 && BitLength(y) <= |bits|
    ensures HammingDistance(ArrayHash(BitInts(bits)), IntHash(y)) == HammingDistance(IntHash(FromBits(bits)), IntHash(y))
    ensures HammingDistance(IntHash(y), ArrayHash(BitInts(bits))) == HammingDistance(IntHash(y), IntHash(FromBits(bits)))
  {
    var p := Padded(y, |bits|);
    assert |p| == |bits|;
    PaddedRoundTrip(y, |bits|);
    BitArrayMatchesInt(bits, p);
    BitArrayMatchesInt(p, bits);
  }

  /** The distance between two ints is zero exactly when they are equal. */
  lemma IntDistanceZero(a: nat, b: nat)
    ensures HammingDistance(IntHash(a), IntHash(b)) == Success(PopCount(Xor(a, b)))
    ensures HammingDistance(IntHash(a), IntHash(b)) == Success(0) <==> a == b
  {
    XorZero(a, b);
    PopCountZero(Xor(a, b));
  }

  lemma {:induction false} CountDifferentSymmetric(a: seq<int>, b: seq<int>)
    requires |a| == |b|
    ensures CountDifferent(a, b) == CountDifferent(b, a)
  {
    if |a| > 0 {
      CountDifferentSymmetric(a[..|a| - 1], b[..|b| - 1]);
    }
  }

  lemma ArrayDistanceSymmetric(xs: seq<int>, ys: seq<int>)
    ensures ArrayDistance(xs, ys) == ArrayDistance(ys, xs)
  {
    if |xs| == |ys| {
      CountDifferentSymmetric(xs, ys);
    }
  }

  /** `hamming_distance` does not depend on the order of its arguments. */
  lemma DistanceSymmetric(a: Hash, b: Hash)
    ensures HammingDistance(a, b) == HammingDistance(b, a)
  {
    match (a, b)
    case (IntHash(x), IntHash(y)) => XorSymmetric(x, y);
    case (ArrayHash(xs), ArrayHash(ys)) => ArrayDistanceSymmetric(xs, ys);
    case (ArrayHash(xs), IntHash(y)) => ArrayDistanceSymmetric(xs, BitInts(Padded(y, |xs|)));
    case (IntHash(x), ArrayHash(ys)) => ArrayDistanceSymmetric(BitInts(Padded(x, |ys|)), ys);
    case _ =>
  }

  /** The positions below `n` at which two arrays differ. */
  function DiffPositions(a: seq<int>, b: seq<int>, n: nat): set<nat>
    requires n <= |a| == |b|
  {
    set i: nat | i < n && a[i] != b[i]
  }

  lemma {:induction false} DiffPositionsCount(a: seq<int>, b: seq<int>, n: nat)
    requires n <= |a| == |b|
    ensures |DiffPositions(a, b, n)| == CountDifferent(a[..n], b[..n])
  {
    if n > 0 {
      DiffPositionsCount(a, b, n - 1);
      CountDifferentStep(a, b, n);
      DiffPositionsStep(a, b, n);
    } else {
      assert DiffPositions(a, b, 0) == {};
    }
  }

  lemma CountDifferentStep(a: seq<int>, b: seq<int>, n: nat)
    requires 0 < n <= |a| == |b|
    ensures CountDifferent(a[..n], b[..n]) == CountDifferent(a[..n - 1], b[..n - 1]) + (if a[n - 1] != b[n - 1] then 1 else 0)
  {
    assert a[..n][..n - 1] == a[..n - 1] && b[..n][..n - 1] == b[..n - 1];
  }

  lemma DiffPositionsStep(a: seq<int>, b: seq<int>, n: nat)
    requires 0 < n <= |a| == |b|
    ensures |DiffPositions(a, b, n)| == |DiffPositions(a, b, n - 1)| + (if a[n - 1] != b[n - 1] then 1 else 0)
  {
    if a[n - 1] != b[n - 1] {
      DiffPositionsGrow(a, b, n);
    } else {
      DiffPositionsKeep(a, b, n);
    }
  }

  lemma DiffPositionsGrow(a: seq<int>, b: seq<int>, n: nat)
    requires 0 < n <= |a| == |b| && a[n - 1] != b[n - 1]
    ensures DiffPositions(a, b, n) == DiffPositions(a, b, n - 1) + {n - 1}
    ensures n - 1 !in DiffPositions(a, b, n - 1)
  {
  }

  lemma DiffPositionsKeep(a: seq<int>, b: seq<int>, n: nat)
    requires 0 < n <= |a| == |b| && a[n - 1] == b[n - 1]
    ensures DiffPositions(a, b, n) == DiffPositions(a, b, n - 1)
  {
  }

  /** For two arrays of the same length the distance is the number of positions
      at which they differ. */
  lemma ArrayDistanceCountsPositions(a: seq<int>, b: seq<int>)
    requires |a| == |b|
    ensures HammingDistance(ArrayHash(a), ArrayHash(b)) == Success(|DiffPositions(a, b, |a|)|)
  {
    DiffPositionsCount(a, b, |a|);
    assert a[..|a|] == a && b[..|b|] == b;
  }

  lemma {:induction false} CountDifferentBits(x: seq<bool>, y: seq<bool>)
    requires |x| == |y|
    ensures CountDifferent(BitInts(x), BitInts(y)) == Mismatches(x, y)
  {
    if |x| > 0 {
      var n := |x| - 1;
      assert BitInts(x)[..n] == BitInts(x[..n]);
      assert BitInts(y)[..n] == BitInts(y[..n]);
      CountDifferentBits(x[..n], y[..n]);
    }
  }

  /** A hash computed as an array and the same hash computed as an int give the
      same distance: comparing two `n`-bit arrays counts the set bits of the xor
      of the numbers they spell. */
  lemma BitArrayMatchesInt(x: seq<bool>, y: seq<bool>)
    requires |x| == |y|
    ensures HammingDistance(ArrayHash(BitInts(x)), ArrayHash(BitInts(y)))
              == HammingDistance(IntHash(FromBits(x)), IntHash(FromBits(y)))
  {
    CountDifferentBits(x, y);
    LowBitsFromBits(x);
    LowBitsFromBits(y);
    FromBitsBound(x);
    FromBitsBound(y);
    LowBitsDistance(FromBits(x), FromBits(y), |x|);
  }

  // ---------------------------------------------------------------------------
  // phash: the guard and the two output forms

  /** The output of `phash` given the thresholded low-frequency bits of the
      image (row-major, `hash_size * hash_size` of them): `ValueError` for a
      hash size below 2, else the bits as an int (`as_int`) or as a 0/1 array. */
  function PhashValue(hashSize: int, bits: seq<bool>, asInt: bool): (r: Result<Hash>)
    requires hashSize >= 2 ==> |bits| == hashSize * hashSize
    ensures r.Failure? <==> hashSize < 2
    ensures r.Failure? ==> r.error.ValueError?
    ensures r.Success? && asInt ==> r.value.IntHash? && r.value.v < Pow2(hashSize * hashSize)
    ensures r.Success? && !asInt ==> r.value.ArrayHash? && |r.value.elems| == hashSize * hashSize
    ensures r.Success? && !asInt ==> forall i :: 0 <= i < |r.value.elems| ==> 0 <= r.value.elems[i] <= 1
  {
    if hashSize < 2 then Failure(ValueError("Hash size must be greater than or equal to 2"))
    else if asInt then
      FromBitsBound(bits);
      Success(IntHash(FromBits(bits)))
    else Success(ArrayHash(BitInts(bits)))
  }

  /** Distances between two hashes of one size agree whether both are taken as
      ints or both as arrays. */
  lemma PhashFormsAgree(hashSize: int, x: seq<bool>, y: seq<bool>)
    requires hashSize >= 2 && |x| == |y| == hashSize * hashSize
    ensures HammingDistance(PhashValue(hashSize, x, true).value, PhashValue(hashSize, y, true).value)
              == HammingDistance(PhashValue(hashSize, x, false).value, PhashValue(hashSize, y, false).value)
  {
    BitArrayMatchesInt(x, y);
  }

  // ---------------------------------------------------------------------------
  // order_points

  datatype Point = Point(x: int, y: int)

  /** `pts.sum(axis=1)`: x + y per point. */
  function Sums(pts: seq<Point>): (r: seq<int>)
    ensures |r| == |pts|
    ensures forall i :: 0 <= i < |pts| ==> r[i] == pts[i].x + pts[i].y
  {
    if |pts| == 0 then [] else [pts[0].x + pts[0].y] + Sums(pts[1..])
  }

  /** `np.diff(pts, axis=1)`: y - x per point. */
  function Diffs(pts: seq<Point>): (r: seq<int>)
    ensures |r| == |pts|
    ensures forall i :: 0 <= i < |pts| ==> r[i] == pts[i].y - pts[i].x
  {
    if |pts| == 0 then [] else [pts[0].y - pts[0].x] + Diffs(pts[1..])
  }

  /** `i` is where `np.argmin` stops: a minimum, and the first one. */
  predicate IsFirstMin(keys: seq<int>, i: nat) {
    && i < |keys|
    && (forall k :: 0 <= k < |keys| ==> keys[i] <= keys[k])
    && (forall k :: 0 <= k < i ==> keys[k] > keys[i])
  }

  /** `i` is where `np.argmax` stops: a maximum, and the first one. */
  predicate IsFirstMax(keys: seq<int>, i: nat) {
    && i < |keys|
    && (forall k :: 0 <= k < |keys| ==> keys[i] >= keys[k])
    && (forall k :: 0 <= k < i ==> keys[k] < keys[i])
  }

  /** The first index of a minimum, computed from the left. */
  function FirstArgMin(keys: seq<int>): (r: nat)
    requires |keys| > 0
    ensures IsFirstMin(keys, r)
  {
    if |keys| == 1 then 0
    else
      var j := FirstArgMin(keys[..|keys| - 1]);
      if keys[|keys| - 1] < keys[j] then |keys| - 1 else j
  }

  /** The first index of a maximum, computed from the left. */
  function FirstArgMax(keys: seq<int>): (r: nat)
    requires |keys| > 0
    ensures IsFirstMax(keys, r)
  {
    if |keys| == 1 then 0
    else
      var j := FirstArgMax(keys[..|keys| - 1]);
      if keys[|keys| - 1] > keys[j] then |keys| - 1 else j
  }

  /** The first minimum is unique: the predicate pins the index down. */
  lemma FirstMinUnique(keys: seq<int>, i: nat, j: nat)
    requires IsFirstMin(keys, i) && IsFirstMin(keys, j)
    ensures i == j
  {
    assert keys[i] == keys[j];
  }

  /** The first maximum is unique. */
  lemma FirstMaxUnique(keys: seq<int>, i: nat, j: nat)
    requires IsFirstMax(keys, i) && IsFirstMax(keys, j)
    ensures i == j
  {
    assert keys[i] == keys[j];
  }

  /** `np.argmin` as a scan that replaces the best index only on a strictly
      smaller key. */
  method ArgMin(keys: seq<int>) returns (best: nat)
    requires |keys| > 0
    ensures IsFirstMin(keys, best)
    ensures best == FirstArgMin(keys)
  {
    best := 0;
    var i := 1;
    while i < |keys|
      invariant 1 <= i <= |keys|
      invariant best == FirstArgMin(keys[..i])
    {
      assert keys[..i + 1][..i] == keys[..i];
      if keys[i] < keys[best] {
        best := i;
      }
      i := i + 1;
    }
    assert keys[..i] == keys;
    FirstMinUnique(keys, best, FirstArgMin(keys));
  }

  /** `np.argmax`: replaces the best index only on a strictly larger key. */
  method ArgMax(keys: seq<int>) returns (best: nat)
    requires |keys| > 0
    ensures IsFirstMax(keys, best)
    ensures best == FirstArgMax(keys)
  {
    best := 0;
    var i := 1;
    while i < |keys|
      invariant 1 <= i <= |keys|
      invariant best == FirstArgMax(keys[..i])
    {
      assert keys[..i + 1][..i] == keys[..i];
      if keys[i] > keys[best] {
        best := i;
      }
      i := i + 1;
    }
    assert keys[..i] == keys;
  }

  /** `order_points`: top-left (least x + y), top-right (least y - x),
      bottom-right (greatest x + y), bottom-left (greatest y - x), each the
      first such input point; `argmin` of no points raises `ValueError`. */
  method OrderPoints(pts: seq<Point>) returns (r: Result<seq<Point>>)
    ensures r.Failure? <==> |pts| == 0
    ensures r.Failure? ==> r.error.ValueError?
    ensures r.Success? ==> |r.value| == 4 && forall k :: 0 <= k < 4 ==> r.value[k] in pts
    ensures r.Success? ==> forall p :: p in pts ==>
              && r.value[0].x + r.value[0].y <= p.x + p.y
              && r.value[1].y - r.value[1].x <= p.y - p.x
              && r.value[2].x + r.value[2].y >= p.x + p.y
              && r.value[3].y - r.value[3].x >= p.y - p.x
    ensures r.Success? ==> r.value == [pts[FirstArgMin(Sums(pts))], pts[FirstArgMin(Diffs(pts))],
                                       pts[FirstArgMax(Sums(pts))], pts[FirstArgMax(Diffs(pts))]]
  {
    if |pts| == 0 {
      return Failure(ValueError("attempt to get argmin of an empty sequence"));
    }
    var sums, diffs := Sums(pts), Diffs(pts);
    var topLeft := ArgMin(sums);
    var topRight := ArgMin(diffs);
    var bottomRight := ArgMax(sums);
    var bottomLeft := ArgMax(diffs);
    CornersExtremal(pts);
    r := Success([pts[topLeft], pts[topRight], pts[bottomRight], pts[bottomLeft]]);
  }

  lemma CornersExtremal(pts: seq<Point>)
    requires |pts| > 0
    ensures forall k :: 0 <= k < 4 ==> [pts[FirstArgMin(Sums(pts))], pts[FirstArgMin(Diffs(pts))],
                                         pts[FirstArgMax(Sums(pts))], pts[FirstArgMax(Diffs(pts))]][k] in pts
    ensures forall p :: p in pts ==>
              && pts[FirstArgMin(Sums(pts))].x + pts[FirstArgMin(Sums(pts))].y <= p.x + p.y
              && pts[FirstArgMin(Diffs(pts))].y - pts[FirstArgMin(Diffs(pts))].x <= p.y - p.x
              && pts[FirstArgMax(Sums(pts))].x + pts[FirstArgMax(Sums(pts))].y >= p.x + p.y
              && pts[FirstArgMax(Diffs(pts))].y - pts[FirstArgMax(Diffs(pts))].x >= p.y - p.x
  {
    var sums, diffs := Sums(pts), Diffs(pts);
    var tl, tr, br, bl := FirstArgMin(sums), FirstArgMin(diffs), FirstArgMax(sums), FirstArgMax(diffs);
    forall p | p in pts
      ensures && pts[tl].x + pts[tl].y <= p.x + p.y
              && pts[tr].y - pts[tr].x <= p.y - p.x
              && pts[br].x + pts[br].y >= p.x + p.y
              && pts[bl].y - pts[bl].x >= p.y - p.x
    {
      var k :| 0 <= k < |pts| && pts[k] == p;
      assert sums[tl] <= sums[k] && sums[br] >= sums[k];
      assert diffs[tr] <= diffs[k] && diffs[bl] >= diffs[k];
    }
  }

  /** An axis-aligned rectangle listed out of order comes back as top-left,
      top-right, bottom-right, bottom-left (y grows downwards). */
  lemma AxisAlignedRectangle(pts: seq<Point>)
    requires pts == [Point(4, 2), Point(0, 0), Point(0, 2), Point(4, 0)]
    ensures [pts[FirstArgMin(Sums(pts))], pts[FirstArgMin(Diffs(pts))],
             pts[FirstArgMax(Sums(pts))], pts[FirstArgMax(Diffs(pts))]]
              == [Point(0, 0), Point(4, 0), Point(4, 2), Point(0, 2)]
  {
    RectangleKeys(pts);
    RectangleExtremes();
  }

  lemma RectangleKeys(pts: seq<Point>)
    requires pts == [Point(4, 2), Point(0, 0), Point(0, 2), Point(4, 0)]
    ensures Sums(pts) == [6, 0, 2, 4] && Diffs(pts) == [-2, 0, 2, -4]
  {
    var sums, diffs := Sums(pts), Diffs(pts);
    assert |sums| == 4 && sums[0] == 6 && sums[1] == 0 && sums[2] == 2 && sums[3] == 4;
    assert |diffs| == 4 && diffs[0] == -2 && diffs[1] == 0 && diffs[2] == 2 && diffs[3] == -4;
  }

  lemma RectangleExtremes()
    ensures FirstArgMin([6, 0, 2, 4]) == 1 && FirstArgMax([6, 0, 2, 4]) == 0
    ensures FirstArgMin([-2, 0, 2, -4]) == 3 && FirstArgMax([-2, 0, 2, -4]) == 2
  {
    var sums, diffs := [6, 0, 2, 4], [-2, 0, 2, -4];
    assert IsFirstMin(sums, 1) && IsFirstMin(diffs, 3);
    assert IsFirstMax(sums, 0) && IsFirstMax(diffs, 2);
    FirstMinUnique(sums, FirstArgMin(sums), 1);
    FirstMinUnique(diffs, FirstArgMin(diffs), 3);
    FirstMaxUnique(sums, FirstArgMax(sums), 0);
    FirstMaxUnique(diffs, FirstArgMax(diffs), 2);
  }
}
