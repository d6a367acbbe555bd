/** The two perceptual-hash indexes over a card catalog (`PhashHammingTrie`
    and `PhashBitsDataFrame`), their shared tolerance policy, and the card item
    they store (`CardPhashItem`: its hash, its `^` operator and the validator
    that turns a bit array into an integer hash). The catalog is an in-memory
    sequence of cards. */
module Phash {
  import opened Wrappers
  import opened Bits
  import opened Ranking
  import HammingTrie
  import HammingTrieProperties
  import opened Numerals

  /** `default_tolerance`: `int(B * 0.375)`, three eighths of the bit length rounded down. */
  function DefaultTolerance(bitLength: nat): (r: nat)
    ensures 8 * r <= 3 * bitLength < 8 * r + 8
  {
    (3 * bitLength) / 8
  }

  /** The three catalog widths get tolerances 24, 96 and 384. */
  lemma DefaultTolerances()
    ensures DefaultTolerance(64) == 24
    ensures DefaultTolerance(256) == 96
    ensures DefaultTolerance(1024) == 384
  {
  }

  /** `tolerance or self.default_tolerance`: a missing or zero tolerance is replaced. */
  function ResolveTolerance(tolerance: Option<int>, bitLength: nat): (r: int)
    ensures tolerance.Some? && tolerance.value != 0 ==> r == tolerance.value
    ensures tolerance.None? || tolerance.value == 0 ==> r == DefaultTolerance(bitLength)
  {
    match tolerance
    case None => DefaultTolerance(bitLength)
    case Some(t) => if t == 0 then DefaultTolerance(bitLength) else t
  }

  // ---------------------------------------------------------------------------
  // CardPhashItem

  /** `CardPhashItem`: a catalog row and its perceptual hash. */
  datatype Card = Card(scryfallId: string, name: string, setCode: string, phash: nat)

  /** 2^63: the first value that no longer fits a 64-bit `Py_hash_t`. */
  const HashRange: nat := 0x8000_0000_0000_0000

  /** 2^61 - 1: the modulus of CPython's integer hash on 64-bit builds. */
  const HashModulus: nat := 0x1FFF_FFFF_FFFF_FFFF

  /** `hash(x)` when `x.__hash__()` returns the non-negative int `v`: CPython keeps
      `v` when it fits a signed 64-bit word, and otherwise hashes the int itself,
      which reduces it modulo 2^61 - 1. */
  function PyHash(v: nat): (r: nat)
    ensures v < HashRange ==> r == v
    ensures v >= HashRange ==> r < HashModulus && (v - r) % HashModulus == 0
  {
    if v < HashRange then v else v % HashModulus
  }

  /** The right operand of `item ^ other`: an int, or another card. */
  datatype XorOperand = IntOperand(k: nat) | CardOperand(card: Card)

  /** `CardPhashItem.__xor__` as written: it xors `hash(self)`, not `self.phash`. */
  function CardXor(c: Card, other: XorOperand): (r: nat)
    ensures c.phash < HashRange && other.IntOperand? ==> r == Xor(c.phash, other.k)
    ensures (other.CardOperand? && c.phash < HashRange && other.card.phash < HashRange)
              ==> r == Xor(c.phash, other.card.phash)
  {
    match other
    case IntOperand(k) => Xor(PyHash(c.phash), k)
    case CardOperand(d) => Xor(PyHash(c.phash), PyHash(d.phash))
  }

  /** A hash of 2^63 or more (most 256-bit hashes) is reduced before the xor:
      with `phash = 2^63` and `k = 0` the operator gives 4, not 2^63. */
  lemma CardXorReducesWideHashes()
    ensures CardXor(Card("", "", "", HashRange), IntOperand(0)) == 4
    ensures Xor(HashRange, 0) == HashRange
  {
    XorZeroRight(HashRange);
    XorZeroRight(4);
  }

  lemma {:induction false} XorZeroRight(a: nat)
    ensures Xor(a, 0) == a
    decreases a
  {
    if a != 0 {
      XorZeroRight(a / 2);
    }
  }

  /** The operator as intended: the xor of the hash values themselves. */
  function CardXorIntended(c: Card, other: XorOperand): (r: nat)
    ensures r == 0 <==> c.phash == (if other.IntOperand? then other.k else other.card.phash)
  {
    var k := if other.IntOperand? then other.k else other.card.phash;
    XorZero(c.phash, k);
    Xor(c.phash, k)
  }

  /** The intended operator measures the Hamming distance, and xor-ing its
      result with the same int gives the card's hash back. */
  lemma CardXorIntendedProperties(c: Card, k: nat)
    ensures PopCount(CardXorIntended(c, IntOperand(k))) == PopCount(Xor(c.phash, k))
    ensures Xor(CardXorIntended(c, IntOperand(k)), k) == c.phash
  {
    XorInvolution(c.phash, k);
  }

  /** As written and as intended agree on every hash below 2^63. */
  lemma CardXorAgreesBelowHashRange(c: Card, other: XorOperand)
    requires c.phash < HashRange
    requires other.CardOperand? ==> other.card.phash < HashRange
    ensures CardXor(c, other) == CardXorIntended(c, other)
  {
  }

  /** The input of the `phash` validator: a numpy array of numbers, or anything
      else (an int), which passes through. */
  datatype PhashInput = BitArray(elems: seq<int>) | Scalar(v: int)

  /** `str(e)` for an int. */
  function Decimal(e: int): (r: string)
    ensures |r| >= 1
  {
    if e < 0 then "-" + NatDecimal(-e) else NatDecimal(e)
  }

  /** `''.join(value.astype('int').astype('str'))`. */
  function JoinDecimals(elems: seq<int>): (r: string)
    ensures |r| >= |elems|
  {
    if |elems| == 0 then "" else Decimal(elems[0]) + JoinDecimals(elems[1..])
  }

  predicate IsBinaryDigit(c: char) {
    c == '0' || c == '1'
  }

  predicate AllBinaryDigits(s: string) {
    forall i :: 0 <= i < |s| ==> IsBinaryDigit(s[i])
  }

  /** The bits named by a string of binary digits. */
  function DigitBits(s: string): (r: seq<bool>)
    ensures |r| == |s|
    ensures forall i :: 0 <= i < |s| ==> r[i] == (s[i] == '1')
  {
    if |s| == 0 then [] else [s[0] == '1'] + DigitBits(s[1..])
  }

  /** `int(s, 2)` on a string without whitespace or underscores (the only strings
      the validator builds): an optional sign and at least one binary digit. */
  function PyIntBase2(s: string): (r: Result<int>)
    ensures r.Success? ==> |s| >= 1 && (r.value < 0 ==> s[0] == '-')
    ensures r.Success? && |s| >= 1 && s[0] != '-' && s[0] != '+' ==> r.value == FromBits(DigitBits(s))
  {
    var signed := |s| > 0 && (s[0] == '-' || s[0] == '+');
    var digits := if signed then s[1..] else s;
    if |digits| == 0 || !AllBinaryDigits(digits) then
      Failure(ValueError("invalid literal for int() with base 2"))
    else
      var v: int := FromBits(DigitBits(digits));
      Success(if s[0] == '-' then -v else v)
  }

  /** `CardPhashItem.validate_phash`: an array becomes the int whose binary digits
      are its elements' decimal renderings; anything else is kept. */
  function ValidatePhash(input: PhashInput): (r: Result<int>)
    ensures input.Scalar? ==> r == Success(input.v)
    ensures input.BitArray? && |input.elems| == 0 ==> r.Failure?
  {
    match input
    case Scalar(v) => Success(v)
    case BitArray(elems) => PyIntBase2(JoinDecimals(elems))
  }

  lemma {:induction false} JoinBitInts(bs: seq<bool>)
    ensures AllBinaryDigits(JoinDecimals(BitInts(bs)))
    ensures DigitBits(JoinDecimals(BitInts(bs))) == bs
  {
    if |bs| > 0 {
      JoinBitInts(bs[1..]);
      assert BitInts(bs)[1..] == BitInts(bs[1..]);
      var head := Decimal(BitInts(bs)[0]);
      assert head == [if bs[0] then '1' else '0'];
      var s := JoinDecimals(BitInts(bs));
      assert s == head + JoinDecimals(BitInts(bs[1..]));
      assert s[1..] == JoinDecimals(BitInts(bs[1..]));
      assert DigitBits(s) == [bs[0]] + DigitBits(s[1..]);
      assert bs == [bs[0]] + bs[1..];
    }
  }

  /** A non-empty 0/1 array validates to the number it spells out. */
  lemma ValidateBitArray(bs: seq<bool>)
    requires |bs| > 0
    ensures ValidatePhash(BitArray(BitInts(bs))) == Success(FromBits(bs))
  {
    var s := JoinDecimals(BitInts(bs));
    assert AllBinaryDigits(s) && DigitBits(s) == bs by {
      JoinBitInts(bs);
    }
    UnsignedBinary(s);
  }

  lemma UnsignedBinary(s: string)
    requires |s| > 0 && AllBinaryDigits(s)
    ensures PyIntBase2(s) == Success(FromBits(DigitBits(s)))
  {
    assert IsBinaryDigit(s[0]);
  }

  /** The digits of `bin(v)[2:].zfill(w)` as an array validate back to `v`. */
  lemma ValidatePaddedRoundTrip(v: nat, w: nat)
    ensures ValidatePhash(BitArray(BitInts(Padded(v, w)))) == Success(v)
  {
    ValidateBitArray(Padded(v, w));
    PaddedRoundTrip(v, w);
  }

  lemma {:induction false} DigitInJoin(elems: seq<int>, i: nat)
    requires i < |elems| && 2 <= elems[i] <= 9
    ensures exists j :: 0 <= j < |JoinDecimals(elems)| && JoinDecimals(elems)[j] == DigitChar(elems[i])
  {
    var s := JoinDecimals(elems);
    var head := Decimal(elems[0]);
    assert s == head + JoinDecimals(elems[1..]);
    if i == 0 {
      assert s[0] == DigitChar(elems[0]);
    } else {
      DigitInJoin(elems[1..], i - 1);
      var j :| 0 <= j < |JoinDecimals(elems[1..])| && JoinDecimals(elems[1..])[j] == DigitChar(elems[i]);
      assert s[|head| + j] == DigitChar(elems[i]);
    }
  }

  /** An element from 2 to 9 is not a binary digit, so the array is rejected. */
  lemma NonBinaryElementRejected(elems: seq<int>, i: nat)
    requires i < |elems| && 2 <= elems[i] <= 9
    ensures ValidatePhash(BitArray(elems)).Failure?
  {
    DigitInJoin(elems, i);
    var s := JoinDecimals(elems);
    var j :| 0 <= j < |s| && s[j] == DigitChar(elems[i]);
    var signed := |s| > 0 && (s[0] == '-' || s[0] == '+');
    var digits := if signed then s[1..] else s;
    if signed {
      assert j > 0;
      assert digits[j - 1] == s[j];
    } else {
      assert digits[j] == s[j];
    }
  }

  // ---------------------------------------------------------------------------
  // Results

  /** `PhashTreeResultItem` equality: only the values are compared. */
  predicate SameResult<T(==)>(a: Scored<T>, b: Scored<T>) {
    a.item == b.item
  }

  // ---------------------------------------------------------------------------
  // PhashBitsDataFrame: the linear scan

  /** Every catalog card with its distance to the query, in catalog order. */
  function ScoreCatalog(catalog: seq<Card>, value: nat): (r: seq<Scored<Card>>)
    ensures |r| == |catalog|
    ensures forall i :: 0 <= i < |r| ==> r[i] == Scored(catalog[i], PopCount(Xor(catalog[i].phash, value)))
  {
    if |catalog| == 0 then []
    else [Scored(catalog[0], PopCount(Xor(catalog[0].phash, value)))] + ScoreCatalog(catalog[1..], value)
  }

  /** `nsmallest(n, 'distance', keep='first')` on already sorted rows: the first
      `n`, none for `n <= 0`. */
  function TakeSmallest<T>(sorted: seq<Scored<T>>, n: int): (r: seq<Scored<T>>)
    ensures |r| <= |sorted| && (n <= 0 ==> |r| == 0) && (n > 0 ==> |r| == if n <= |sorted| then n else |sorted|)
    ensures r <= sorted
  {
    if n <= 0 then [] else if n <= |sorted| then sorted[..n] else sorted
  }

  /** `results[results['distance'] <= tolerance]`: order-preserving. */
  function WithinTolerance<T(!new)>(s: seq<Scored<T>>, tolerance: int): (r: seq<Scored<T>>)
    ensures |r| <= |s|
    ensures forall x :: x in r <==> x in s && x.distance <= tolerance
    ensures SortedByDistance(s) ==> SortedByDistance(r)
    ensures |s| > 0 && s[0].distance <= tolerance ==> |r| > 0 && r[0] == s[0]
  {
    if |s| == 0 then []
    else
      var rest := WithinTolerance(s[1..], tolerance);
      WithinToleranceMembers(s, tolerance, rest);
      if s[0].distance <= tolerance then
        WithinToleranceSorted(s, rest);
        [s[0]] + rest
      else rest
  }

  /** The filter keeps each result at most as often as it occurs, and keeps a
      list whose results are all within tolerance as it is. */
  lemma WithinToleranceKeeps<T(!new)>(s: seq<Scored<T>>, tolerance: int)
    ensures multiset(WithinTolerance(s, tolerance)) <= multiset(s)
    ensures (forall x :: x in s ==> x.distance <= tolerance) ==> WithinTolerance(s, tolerance) == s
  {
    WithinToleranceSub(s, tolerance);
    if forall x :: x in s ==> x.distance <= tolerance {
      WithinToleranceAll(s, tolerance);
    }
  }

  lemma {:induction false} WithinToleranceSub<T(!new)>(s: seq<Scored<T>>, tolerance: int)
    ensures multiset(WithinTolerance(s, tolerance)) <= multiset(s)
  {
    if |s| > 0 {
      var rest := WithinTolerance(s[1..], tolerance);
      WithinToleranceSub(s[1..], tolerance);
      assert s == [s[0]] + s[1..];
      assert multiset(s) == multiset{s[0]} + multiset(s[1..]);
      if s[0].distance <= tolerance {
        assert WithinTolerance(s, tolerance) == [s[0]] + rest;
        assert multiset([s[0]] + rest) == multiset{s[0]} + multiset(rest);
      } else {
        assert WithinTolerance(s, tolerance) == rest;
      }
    }
  }

  lemma {:induction false} WithinToleranceAll<T(!new)>(s: seq<Scored<T>>, tolerance: int)
    requires forall x :: x in s ==> x.distance <= tolerance
    ensures WithinTolerance(s, tolerance) == s
  {
    if |s| > 0 {
      var tail := s[1..];
      assert forall x :: x in tail ==> x in s;
      WithinToleranceAll(tail, tolerance);
      assert s[0] in s;
      assert WithinTolerance(s, tolerance) == [s[0]] + tail;
      assert s == [s[0]] + tail;
    }
  }

  lemma WithinToleranceMembers<T>(s: seq<Scored<T>>, tolerance: int, rest: seq<Scored<T>>)
    requires |s| > 0
    requires forall x :: x in rest <==> x in s[1..] && x.distance <= tolerance
    ensures forall x :: x in (if s[0].distance <= tolerance then [s[0]] + rest else rest) <==>
                        x in s && x.distance <= tolerance
  {
    assert forall x :: x in s <==> x == s[0] || x in s[1..] by {
      assert s == [s[0]] + s[1..];
    }
  }

  /** Keeping the head of a sorted sequence in front of a sorted selection from its tail. */
  lemma WithinToleranceSorted<T>(s: seq<Scored<T>>, rest: seq<Scored<T>>)
    requires |s| > 0
    requires forall x :: x in rest ==> x in s[1..]
    requires SortedByDistance(s[1..]) ==> SortedByDistance(rest)
    ensures SortedByDistance(s) ==> SortedByDistance([s[0]] + rest)
  {
    if SortedByDistance(s) {
      assert SortedByDistance(s[1..]);
      var r := [s[0]] + rest;
      forall i, j | 0 <= i < j < |r|
        ensures r[i].distance <= r[j].distance
      {
        assert r[j] == rest[j - 1];
        if i == 0 {
          assert rest[j - 1] in s[1..];
          var k :| 0 <= k < |s[1..]| && s[1..][k] == rest[j - 1];
          assert s[k + 1] == rest[j - 1];
        } else {
          assert r[i] == rest[i - 1];
        }
      }
    }
  }

  /** `nsmallest(n, 'distance', keep='first')` followed by the tolerance filter,
      on scored rows in table order. The results are rows of the table, each at
      most as often as the table holds it. A row within tolerance is left out
      only when `n` results were returned, none of them farther than it: these
      are the `n` nearest rows. */
  function NearestWithin<T(!new)>(rows: seq<Scored<T>>, n: int, tol: int): (r: seq<Scored<T>>)
    ensures |r| <= |rows| && (n >= 0 ==> |r| <= n)
    ensures SortedByDistance(r)
    ensures forall x :: x in r ==> x.distance <= tol
    ensures multiset(r) <= multiset(rows)
    ensures n >= 0 ==>
              forall x :: x in rows && x.distance <= tol && x !in r ==>
                |r| == n && forall y :: y in r ==> y.distance <= x.distance
  {
    var sorted := SortByDistance(rows);
    var top := TakeSmallest(sorted, n);
    PrefixSorted(sorted, |top|);
    assert top == sorted[..|top|];
    FilteredTopSub(sorted, n, tol);
    FilteredTopNearest(sorted, n, tol);
    assert forall x :: x in rows ==> x in sorted by {
      forall x | x in rows
        ensures x in sorted
      {
        assert x in multiset(rows);
      }
    }
    WithinTolerance(top, tol)
  }

  /** Among rows at equal distance, the nearest rows keep table order, and a row
      is cut only after the earlier rows at its distance (`keep='first'`). When
      `n` covers the table, every row within tolerance is kept, in table order. */
  lemma NearestKeepsTableOrder<T(!new)>(rows: seq<Scored<T>>, n: int, tol: int, d: int)
    ensures AtDistance(NearestWithin(rows, n, tol), d) <= AtDistance(rows, d)
    ensures n >= |rows| ==> AtDistance(NearestWithin(rows, n, tol), d) == if d <= tol then AtDistance(rows, d) else []
  {
    var sorted := SortByDistance(rows);
    var top := TakeSmallest(sorted, n);
    assert NearestWithin(rows, n, tol) == WithinTolerance(top, tol);
    assert top == sorted[..|top|];
    WithinToleranceAtDistance(top, tol, d);
    AtDistancePrefix(sorted, |top|, d);
    SortStable(rows, d);
    if n >= |rows| {
      assert top == sorted;
    }
  }

  /** The table scan, like `nsmallest(keep='first')`, returns the first catalog
      rows at each distance, in catalog order. */
  lemma ScanFindKeepsCatalogOrder(catalog: seq<Card>, value: nat, tolerance: Option<int>, n: int, bitLength: nat, d: int)
    ensures AtDistance(ScanFind(catalog, value, tolerance, n, bitLength), d) <= AtDistance(ScoreCatalog(catalog, value), d)
  {
    NearestKeepsTableOrder(ScoreCatalog(catalog, value), n, ResolveTolerance(tolerance, bitLength), d);
  }

  /** The filter keeps the results at a distance within tolerance, in order,
      and none at a distance beyond it. */
  lemma {:induction false} WithinToleranceAtDistance<T(!new)>(s: seq<Scored<T>>, tol: int, d: int)
    ensures AtDistance(WithinTolerance(s, tol), d) == if d <= tol then AtDistance(s, d) else []
  {
    if |s| > 0 {
      var h, tail := s[0], s[1..];
      var rest := WithinTolerance(tail, tol);
      WithinToleranceAtDistance(tail, tol, d);
      assert s == [h] + tail;
      AtDistanceCons(h, tail, d);
      if h.distance <= tol {
        assert WithinTolerance(s, tol) == [h] + rest;
        AtDistanceCons(h, rest, d);
      } else {
        assert WithinTolerance(s, tol) == rest;
      }
    }
  }

  /** `PhashBitsDataFrame.find(value, tolerance, n)`: the nearest rows of the
      scored catalog within the resolved tolerance. */
  function ScanFind(catalog: seq<Card>, value: nat, tolerance: Option<int>, n: int, bitLength: nat): (r: seq<Scored<Card>>)
    ensures |r| <= |catalog| && (n >= 0 ==> |r| <= n)
    ensures SortedByDistance(r)
    ensures forall x :: x in r ==> x.item in catalog && x.distance == PopCount(Xor(x.item.phash, value))
    ensures forall x :: x in r ==> x.distance <= ResolveTolerance(tolerance, bitLength)
    ensures multiset(r) <= multiset(ScoreCatalog(catalog, value))
    ensures n >= 0 ==>
              forall x :: x in ScoreCatalog(catalog, value) && x.distance <= ResolveTolerance(tolerance, bitLength) && x !in r ==>
                |r| == n && forall y :: y in r ==> y.distance <= x.distance
  {
    var scored := ScoreCatalog(catalog, value);
    var r := NearestWithin(scored, n, ResolveTolerance(tolerance, bitLength));
    assert forall x :: x in r ==> x in scored by {
      forall x | x in r
        ensures x in scored
      {
        assert x in multiset(r);
      }
    }
    r
  }

  /** The first `n` rows of a sorted list, filtered by tolerance, are rows of it. */
  lemma FilteredTopSub<T(!new)>(sorted: seq<Scored<T>>, n: int, tol: int)
    ensures multiset(WithinTolerance(TakeSmallest(sorted, n), tol)) <= multiset(sorted)
  {
    var top := TakeSmallest(sorted, n);
    assert sorted == top + sorted[|top|..];
    WithinToleranceKeeps(top, tol);
  }

  /** A row within tolerance that the first `n` rows of a sorted list, filtered
      by tolerance, leave out is no nearer than any of them, and there are `n`. */
  lemma FilteredTopNearest<T(!new)>(sorted: seq<Scored<T>>, n: int, tol: int)
    requires SortedByDistance(sorted)
    ensures n >= 0 ==>
              forall x :: x in sorted && x.distance <= tol && x !in WithinTolerance(TakeSmallest(sorted, n), tol) ==>
                |WithinTolerance(TakeSmallest(sorted, n), tol)| == n
                && forall y :: y in WithinTolerance(TakeSmallest(sorted, n), tol) ==> y.distance <= x.distance
  {
    var top := TakeSmallest(sorted, n);
    var r := WithinTolerance(top, tol);
    if n >= 0 {
      forall x | x in sorted && x.distance <= tol && x !in r
        ensures |r| == n && forall y :: y in r ==> y.distance <= x.distance
      {
        TopNearest(sorted, n, x);
        WithinToleranceKeeps(top, tol);
      }
    }
  }

  /** A row of a sorted list that the first `n` leave out is no nearer than any
      of them, and there are `n` of them. */
  lemma TopNearest<T>(sorted: seq<Scored<T>>, n: nat, x: Scored<T>)
    requires SortedByDistance(sorted) && x in sorted && x !in TakeSmallest(sorted, n)
    ensures |TakeSmallest(sorted, n)| == n
    ensures forall y :: y in TakeSmallest(sorted, n) ==> y.distance <= x.distance
  {
    var k :| 0 <= k < |sorted| && sorted[k] == x;
    assert n < |sorted|;
    assert k >= n;
    forall y | y in TakeSmallest(sorted, n)
      ensures y.distance <= x.distance
    {
      var j :| 0 <= j < n && sorted[..n][j] == y;
      assert sorted[j] == y;
    }
  }

  /** When `n` covers the whole catalog, the scan returns exactly the cards
      within tolerance, each with its distance. */
  lemma ScanFindAll(catalog: seq<Card>, value: nat, tolerance: Option<int>, n: int, bitLength: nat, c: Card)
    requires n >= |catalog|
    ensures (Scored(c, PopCount(Xor(c.phash, value))) in ScanFind(catalog, value, tolerance, n, bitLength))
              <==> c in catalog && PopCount(Xor(c.phash, value)) <= ResolveTolerance(tolerance, bitLength)
  {
    var x := Scored(c, PopCount(Xor(c.phash, value)));
    var scored := ScoreCatalog(catalog, value);
    var sorted := SortByDistance(scored);
    assert TakeSmallest(sorted, n) == sorted;
    assert ScanFind(catalog, value, tolerance, n, bitLength)
        == WithinTolerance(sorted, ResolveTolerance(tolerance, bitLength));
    assert x in sorted <==> x in multiset(scored);
    if c in catalog {
      var i :| 0 <= i < |catalog| && catalog[i] == c;
      assert scored[i] == x;
    }
  }

  /** With `n >= 1`, if any card is within tolerance the scan's first result is
      a card at the smallest distance over the whole catalog. */
  lemma ScanFindBest(catalog: seq<Card>, value: nat, tolerance: Option<int>, n: int, bitLength: nat, c: Card)
    requires n >= 1 && c in catalog
    requires PopCount(Xor(c.phash, value)) <= ResolveTolerance(tolerance, bitLength)
    ensures |ScanFind(catalog, value, tolerance, n, bitLength)| >= 1
    ensures ScanFind(catalog, value, tolerance, n, bitLength)[0].distance <= PopCount(Xor(c.phash, value))
  {
    var sorted := SortByDistance(ScoreCatalog(catalog, value));
    SortedHeadIsBest(catalog, value, c);
    var top := TakeSmallest(sorted, n);
    var r := WithinTolerance(top, ResolveTolerance(tolerance, bitLength));
    assert ScanFind(catalog, value, tolerance, n, bitLength) == r;
    assert top[0] == sorted[0];
    assert sorted[0] in r;
    SortedHeadAtMost(r, sorted[0]);
  }

  /** No element occurs twice. */
  predicate Distinct<T(==)>(s: seq<T>) {
    forall i, j :: 0 <= i < j < |s| ==> s[i] != s[j]
  }

  /** Unlike the trie, the scan never returns two equal results when the
      catalog holds each card once. */
  lemma ScanResultsDistinct(catalog: seq<Card>, value: nat, tolerance: Option<int>, n: int, bitLength: nat)
    requires Distinct(catalog)
    ensures var r := ScanFind(catalog, value, tolerance, n, bitLength);
            forall i, j :: 0 <= i < j < |r| ==> !SameResult(r[i], r[j])
  {
    var r := ScanFind(catalog, value, tolerance, n, bitLength);
    var scored := ScoreCatalog(catalog, value);
    assert Distinct(scored) by {
      forall i, j | 0 <= i < j < |scored|
        ensures scored[i] != scored[j]
      {
        assert scored[i].item == catalog[i] && scored[j].item == catalog[j];
      }
    }
    SubMultisetDistinct(r, scored);
    forall i, j | 0 <= i < j < |r|
      ensures !SameResult(r[i], r[j])
    {
      assert r[i] in r && r[j] in r;
    }
  }

  /** A sub-multiset of a sequence without repeats has no repeats either. */
  lemma SubMultisetDistinct<T>(r: seq<T>, s: seq<T>)
    requires multiset(r) <= multiset(s) && Distinct(s)
    ensures Distinct(r)
  {
    forall i, j | 0 <= i < j < |r|
      ensures r[i] != r[j]
    {
      if r[i] == r[j] {
        TwiceCounted(r, i, j);
        DistinctCountAtMostOne(s, r[i]);
        assert false;
      }
    }
  }

  /** An element at two positions is counted at least twice. */
  lemma TwiceCounted<T>(s: seq<T>, i: nat, j: nat)
    requires i < j < |s| && s[i] == s[j]
    ensures multiset(s)[s[i]] >= 2
  {
    assert s == s[..j] + [s[j]] + s[j + 1..];
    assert s[..j][i] == s[i];
  }

  /** In a sequence without repeats every element is counted at most once. */
  lemma {:induction false} DistinctCountAtMostOne<T>(s: seq<T>, x: T)
    requires Distinct(s)
    ensures multiset(s)[x] <= 1
  {
    if |s| > 0 {
      DistinctCountAtMostOne(s[1..], x);
      assert s == [s[0]] + s[1..];
      if x == s[0] {
        assert x !in s[1..] by {
          forall k | 0 <= k < |s[1..]|
            ensures s[1..][k] != x
          {
            assert s[1..][k] == s[k + 1];
          }
        }
      }
    }
  }

  /** After scoring and sorting, the head is at least as close as any card of the catalog. */
  lemma SortedHeadIsBest(catalog: seq<Card>, value: nat, c: Card)
    requires c in catalog
    ensures |SortByDistance(ScoreCatalog(catalog, value))| > 0
    ensures SortByDistance(ScoreCatalog(catalog, value))[0].distance <= PopCount(Xor(c.phash, value))
  {
    var scored := ScoreCatalog(catalog, value);
    var sorted := SortByDistance(scored);
    var i :| 0 <= i < |catalog| && catalog[i] == c;
    assert scored[i] in multiset(sorted);
    var j :| 0 <= j < |sorted| && sorted[j] == scored[i];
    assert sorted[0].distance <= sorted[j].distance;
  }

  /** The head of a sorted sequence is at least as close as any of its elements. */
  lemma SortedHeadAtMost<T>(s: seq<Scored<T>>, x: Scored<T>)
    requires SortedByDistance(s) && x in s
    ensures |s| > 0 && s[0].distance <= x.distance
  {
    var k :| 0 <= k < |s| && s[k] == x;
    assert k == 0 || s[0].distance <= s[k].distance;
  }

  /** A zero tolerance behaves like no tolerance at all. */
  lemma ScanZeroToleranceIsDefault(catalog: seq<Card>, value: nat, n: int, bitLength: nat)
    ensures ScanFind(catalog, value, Some(0), n, bitLength) == ScanFind(catalog, value, None, n, bitLength)
  {
  }

  // ---------------------------------------------------------------------------
  // PhashHammingTrie: the trie index

  /** The trie entries for the catalog: each card under its hash. */
  function CardEntries(catalog: seq<Card>): (r: seq<HammingTrie.Entry<Card>>)
    ensures |r| == |catalog|
    ensures forall i :: 0 <= i < |r| ==> r[i] == HammingTrie.Entry(catalog[i], catalog[i].phash)
  {
    if |catalog| == 0 then [] else [HammingTrie.Entry(catalog[0], catalog[0].phash)] + CardEntries(catalog[1..])
  }

  /** `PhashHammingTrie.__init__`: a trie built from the catalog in order. */
  function TrieIndex(catalog: seq<Card>): (r: HammingTrie.Trie<Card>)
    ensures HammingTrie.Valid(r)
    ensures r.itemBitLength == HammingTrie.MaxBitLength(CardEntries(catalog))
    ensures forall x :: x in HammingTrie.LeafEntries(r.root, 0) ==> x.item in catalog && x.value == x.item.phash
  {
    var r := HammingTrie.Build(CardEntries(catalog));
    assert forall x :: x in CardEntries(catalog) ==> x.item in catalog && x.value == x.item.phash;
    r
  }

  /** `PhashHammingTrie.find(value, tolerance, n)`: the first `n` (a Python slice)
      of the trie's sorted results; the trie's `IndexError` propagates. */
  function TrieFind(index: HammingTrie.Trie<Card>, value: nat, tolerance: Option<int>, n: int, bitLength: nat)
    : (r: Result<seq<Scored<Card>>>)
    requires HammingTrie.Valid(index)
    ensures r.Failure? <==> HammingTrie.Find(index, value, ResolveTolerance(tolerance, bitLength)).Failure?
    ensures r.Success? ==> r.value <= HammingTrie.Find(index, value, ResolveTolerance(tolerance, bitLength)).value
    ensures r.Success? ==> r.value == PySliceTo(HammingTrie.Find(index, value, ResolveTolerance(tolerance, bitLength)).value, n)
    ensures r.Success? && n >= 0 ==> |r.value| <= n
    ensures r.Success? ==> SortedByDistance(r.value)
    ensures r.Success? ==> forall i :: 0 <= i < |r.value| ==> r.value[i].distance <= ResolveTolerance(tolerance, bitLength)
  {
    var found :- HammingTrie.Find(index, value, ResolveTolerance(tolerance, bitLength));
    var top := PySliceTo(found, n);
    PrefixSorted(found, |top|);
    assert top == found[..|top|];
    Success(top)
  }

  /** The trie front-end can return one card twice: on the split pair that
      inserting a card under 3 and then `c` under 2 leaves behind, the two
      results differ in distance yet compare equal as `PhashTreeResultItem`s. */
  lemma TrieResultsMayRepeat(c: Card, bitLength: nat)
    requires c.phash == 2
    ensures var e := HammingTrie.Entry(c, c.phash);
            var t := HammingTrie.Trie(HammingTrie.Node(None, HammingTrie.Nil,
                                        HammingTrie.Node(None, HammingTrie.Leaf(e), HammingTrie.Leaf(e))), 2, 3);
            HammingTrie.Valid(t)
            && TrieFind(t, 2, Some(2), 2, bitLength) == Success([Scored(c, 0), Scored(c, 1)])
            && SameResult(Scored(c, 0), Scored(c, 1)) && Scored(c, 0) != Scored(c, 1)
  {
    HammingTrieProperties.FindOnSplitPair(c);
    assert ResolveTolerance(Some(2), bitLength) == 2;
    assert PySliceTo([Scored(c, 0), Scored(c, 1)], 2) == [Scored(c, 0), Scored(c, 1)];
  }

  /** A zero tolerance behaves like no tolerance at all. */
  lemma TrieZeroToleranceIsDefault(index: HammingTrie.Trie<Card>, value: nat, n: int, bitLength: nat)
    requires HammingTrie.Valid(index)
    ensures TrieFind(index, value, Some(0), n, bitLength) == TrieFind(index, value, None, n, bitLength)
  {
  }

  /** Unlike the scan, the trie front-end slices with a negative `n` the Python
      way: `n = -1` drops only the last result, where the scan returns nothing. */
  lemma NegativeCountDiffers(catalog: seq<Card>, index: HammingTrie.Trie<Card>, value: nat, tolerance: Option<int>, bitLength: nat)
    requires HammingTrie.Valid(index)
    ensures ScanFind(catalog, value, tolerance, -1, bitLength) == []
    ensures TrieFind(index, value, tolerance, -1, bitLength).Success? ==>
              |TrieFind(index, value, tolerance, -1, bitLength).value|
                == Max(0, |HammingTrie.Find(index, value, ResolveTolerance(tolerance, bitLength)).value| - 1)
  {
  }
}
