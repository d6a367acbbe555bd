/** The browser-side hash helpers: three Hamming distances (over the binary
    string of a BigInt xor, by clearing low set bits of a BigInt, and over
    arrays of numbers) and `match_phash`, which picks the catalog row closest
    to a query hash. BigInts here are non-negative. */
module JsUtils {
  import opened Wrappers
  import opened Bits
  import Cv2Layer

  // ---------------------------------------------------------------------------
  // hammingDistanceString

  /** `v.toString(2)`: binary digits without padding, "0" for 0. */
  function BinaryString(v: nat): (r: string)
    ensures |r| >= 1
    ensures forall i :: 0 <= i < |r| ==> r[i] == '0' || r[i] == '1'
  {
    if v < 2 then (if v == 0 then "0" else "1")
    else BinaryString(v / 2) + (if v % 2 == 0 then "0" else "1")
  }

  /** `(s.match(/1/g) || '').length`: the number of '1' characters. */
  function CountOnes(s: string): (r: nat)
    ensures r <= |s|
  {
    if |s| == 0 then 0 else CountOnes(s[..|s| - 1]) + (if s[|s| - 1] == '1' then 1 else 0)
  }

  lemma {:induction false} CountOnesBinary(v: nat)
    ensures CountOnes(BinaryString(v)) == PopCount(v)
  {
    if v >= 2 {
      CountOnesBinary(v / 2);
      var s := BinaryString(v);
      assert s[..|s| - 1] == BinaryString(v / 2);
    }
  }

  /** `hammingDistanceString(a, b)` on BigInts. */
  function HammingDistanceString(a: nat, b: nat): (r: nat)
    ensures r == PopCount(Xor(a, b))
    ensures r == 0 <==> a == b
  {
    CountOnesBinary(Xor(a, b));
    XorZero(a, b);
    PopCountZero(Xor(a, b));
    CountOnes(BinaryString(Xor(a, b)))
  }

  // ---------------------------------------------------------------------------
  // hammingDistanceBigInt

  /** `hammingDistanceBigInt(a, b)`: counts the iterations of `val &= val - 1n`
      until `val` is zero. Each iteration clears exactly one set bit. */
  method HammingDistanceBigInt(a: nat, b: nat) returns (sum: nat)
    ensures sum == PopCount(Xor(a, b))
    ensures sum == HammingDistanceString(a, b)
  {
    sum := 0;
    var val := Xor(a, b);
    while val != 0
      invariant sum + PopCount(val) == PopCount(Xor(a, b))
      decreases val
    {
      ClearLowestSetBit(val);
      sum := sum + 1;
      val := And(val, val - 1);
    }
    PopCountZero(val);
  }

  // ---------------------------------------------------------------------------
  // hammingDistanceBinaryArray

  const TwoPow31: int := 0x8000_0000
  const TwoPow32: int := 0x1_0000_0000

  /** ECMAScript ToInt32 on an integer: wrap modulo 2^32 into the signed range. */
  function ToInt32(x: int): (r: int)
    ensures -TwoPow31 <= r < TwoPow31
    ensures (r - x) % TwoPow32 == 0
    ensures -TwoPow31 <= x < TwoPow31 ==> r == x
  {
    var u := x % TwoPow32;
    if u >= TwoPow31 then u - TwoPow32 else u
  }

  lemma {:induction false} XorBound(a: nat, b: nat, n: nat)
    requires a < Pow2(n) && b < Pow2(n)
    ensures Xor(a, b) < Pow2(n)
  {
    if n > 0 && !(a == 0 && b == 0) {
      XorBound(a / 2, b / 2, n - 1);
    }
  }

  lemma {:induction false} Pow2Add(m: nat, n: nat)
    ensures Pow2(m + n) == Pow2(m) * Pow2(n)
    decreases n
  {
    if n > 0 {
      Pow2Add(m, n - 1);
    }
  }

  lemma Pow2Words()
    ensures Pow2(31) == TwoPow31 && Pow2(32) == TwoPow32
  {
    assert Pow2(8) == 0x100;
    Pow2Add(8, 8);
    Pow2Add(16, 16);
    assert Pow2(32) == 2 * Pow2(31);
  }

  /** JavaScript's `x ^ y` on two integral numbers: a 32-bit xor of the
      two's-complement patterns, read back as a signed 32-bit value. */
  function JsXor(x: int, y: int): (r: int)
    ensures -TwoPow31 <= r < TwoPow31
    ensures 0 <= x < TwoPow31 && 0 <= y < TwoPow31 ==> r == Xor(x, y)
  {
    XorOfWords(x, y);
    ToInt32(Xor(x % TwoPow32, y % TwoPow32))
  }

  /** The xor of two 32-bit patterns is a 32-bit pattern, and of two values
      below 2^31 is below 2^31. */
  lemma XorOfWords(x: int, y: int)
    ensures Xor(x % TwoPow32, y % TwoPow32) < TwoPow32
    ensures 0 <= x < TwoPow31 && 0 <= y < TwoPow31 ==>
              x % TwoPow32 == x && y % TwoPow32 == y && Xor(x, y) < TwoPow31
  {
    Pow2Words();
    XorBound(x % TwoPow32, y % TwoPow32, 32);
    if 0 <= x < TwoPow31 && 0 <= y < TwoPow31 {
      XorBound(x, y, 31);
    }
  }

  /** The element of `b` at `i`, or `undefined` (ToInt32 of which is 0). */
  function ElementOr0(b: seq<int>, i: nat): int {
    if i < |b| then b[i] else 0
  }

  /** The sum of `a[i] ^ b[i]` over the first `n` indices of `a`. */
  function XorSum(a: seq<int>, b: seq<int>, n: nat): int
    requires n <= |a|
  {
    if n == 0 then 0 else XorSum(a, b, n - 1) + JsXor(a[n - 1], ElementOr0(b, n - 1))
  }

  predicate IsBitArray(a: seq<int>) {
    forall i :: 0 <= i < |a| ==> 0 <= a[i] <= 1
  }

  lemma {:induction false} XorSumOfBits(a: seq<int>, b: seq<int>, n: nat)
    requires IsBitArray(a) && IsBitArray(b) && n <= |a| <= |b|
    ensures XorSum(a, b, n) == Cv2Layer.CountDifferent(a[..n], b[..n])
  {
    if n > 0 {
      XorSumOfBits(a, b, n - 1);
      var an, bn := a[..n], b[..n];
      assert an[..n - 1] == a[..n - 1] && bn[..n - 1] == b[..n - 1];
      assert an[n - 1] == a[n - 1] && bn[n - 1] == b[n - 1];
      assert Cv2Layer.CountDifferent(an, bn)
             == Cv2Layer.CountDifferent(a[..n - 1], b[..n - 1]) + (if a[n - 1] != b[n - 1] then 1 else 0);
      JsXorOfBits(a[n - 1], b[n - 1]);
    }
  }

  /** On 0 and 1, `^` is 1 exactly when the two differ. */
  lemma JsXorOfBits(x: int, y: int)
    requires 0 <= x <= 1 && 0 <= y <= 1
    ensures JsXor(x, y) == if x != y then 1 else 0
  {
    assert Xor(0, 0) == 0 && Xor(1, 1) == 0 && Xor(0, 1) == 1 && Xor(1, 0) == 1;
  }

  /** `hammingDistanceBinaryArray(a, b)`: loops over `a`, so elements of `b` past
      `a`'s length are ignored and a missing one acts as 0. */
  method HammingDistanceBinaryArray(a: seq<int>, b: seq<int>) returns (sum: int)
    ensures sum == XorSum(a, b, |a|)
    ensures IsBitArray(a) && IsBitArray(b) && |a| <= |b| ==> sum == Cv2Layer.CountDifferent(a, b[..|a|])
  {
    sum := 0;
    var i := 0;
    while i < |a|
      invariant 0 <= i <= |a|
      invariant sum == XorSum(a, b, i)
    {
      var bi := if i < |b| then b[i] else 0;
      sum := sum + JsXor(a[i], bi);
      i := i + 1;
    }
    if IsBitArray(a) && IsBitArray(b) && |a| <= |b| {
      XorSumOfBits(a, b, |a|);
      assert a[..|a|] == a;
    }
  }

  /** The three distances agree on a pair of equally long bit strings: the array
      form compares the digits, the BigInt forms xor the numbers they spell. */
  lemma DistancesAgree(x: seq<bool>, y: seq<bool>)
    requires |x| == |y|
    ensures XorSum(BitInts(x), BitInts(y), |x|) == HammingDistanceString(FromBits(x), FromBits(y))
  {
    var a, b := BitInts(x), BitInts(y);
    XorSumOfBits(a, b, |x|);
    assert a[..|x|] == a && b[..|x|] == b;
    Cv2Layer.BitArrayMatchesInt(x, y);
    assert Cv2Layer.HammingDistance(Cv2Layer.ArrayHash(a), Cv2Layer.ArrayHash(b))
             == Success(Cv2Layer.CountDifferent(a, b));
  }

  /** Against an empty second array every position is `a[i] ^ undefined`, so
      the distance is the number of ones in `a`. */
  lemma MissingElementsCountAsZero(a: seq<int>)
    requires IsBitArray(a)
    ensures XorSum(a, [], |a|) == Ones(a, |a|)
  {
    MissingElementsPrefix(a, |a|);
  }

  /** The sum of the first `n` elements. */
  function Ones(a: seq<int>, n: nat): int
    requires n <= |a|
  {
    if n == 0 then 0 else Ones(a, n - 1) + a[n - 1]
  }

  lemma {:induction false} MissingElementsPrefix(a: seq<int>, n: nat)
    requires IsBitArray(a) && n <= |a|
    ensures XorSum(a, [], n) == Ones(a, n)
  {
    if n > 0 {
      MissingElementsPrefix(a, n - 1);
      var x := a[n - 1];
      assert Xor(x, 0) == x by {
        assert Xor(0, 0) == 0 && Xor(1, 0) == 1;
      }
    }
  }

  // ---------------------------------------------------------------------------
  // match_phash

  /** A catalog row of the browser-side table. */
  datatype Row = Row(scryfallId: string, name: string, setCode: string, phash: nat)

  /** The record `match_phash` returns: the row's fields and its distance. */
  datatype Match = Match(scryfallId: string, name: string, setCode: string, phash: nat, distance: nat)

  /** The `distance` column: each row's distance to the query. */
  function Distances(query: nat, rows: seq<Row>): (r: seq<int>)
    ensures |r| == |rows|
    ensures forall i :: 0 <= i < |rows| ==> r[i] == HammingDistanceString(query, rows[i].phash)
  {
    if |rows| == 0 then [] else [HammingDistanceString(query, rows[0].phash)] + Distances(query, rows[1..])
  }

  /** `match_phash(phash, rows, threshold)`: the first row at the least
      distance, unless that distance exceeds `threshold`. */
  function MatchPhash(query: nat, rows: seq<Row>, threshold: int): (r: Option<Match>)
    requires |rows| > 0
    ensures r.None? <==> forall i :: 0 <= i < |rows| ==> HammingDistanceString(query, rows[i].phash) > threshold
    ensures r.Some? ==> r.value.distance <= threshold
    ensures r.Some? ==> forall i :: 0 <= i < |rows| ==> r.value.distance <= HammingDistanceString(query, rows[i].phash)
    ensures r.Some? ==> var k := Cv2Layer.FirstArgMin(Distances(query, rows));
                        && r.value == Match(rows[k].scryfallId, rows[k].name, rows[k].setCode, rows[k].phash,
                                            HammingDistanceString(query, rows[k].phash))
                        && forall i :: 0 <= i < k ==> HammingDistanceString(query, rows[i].phash) > r.value.distance
  {
    var ds := Distances(query, rows);
    var k := Cv2Layer.FirstArgMin(ds);
    var row := rows[k];
    if ds[k] > threshold then None
    else Some(Match(row.scryfallId, row.name, row.setCode, row.phash, ds[k]))
  }

  /** An exact copy of the query in the table is always matched, at distance 0. */
  lemma ExactRowMatches(query: nat, rows: seq<Row>, threshold: int, i: nat)
    requires i < |rows| && rows[i].phash == query && threshold >= 0
    ensures MatchPhash(query, rows, threshold).Some?
    ensures MatchPhash(query, rows, threshold).value.distance == 0
    ensures MatchPhash(query, rows, threshold).value.phash == query
  {
    var r := MatchPhash(query, rows, threshold);
    assert HammingDistanceString(query, rows[i].phash) == 0;
  }
}
