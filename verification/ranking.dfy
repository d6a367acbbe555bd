/** Scored search results and the stable ascending sort by distance that both
    hash indexes apply: Python's `sorted(results, key=lambda a: a.distance)` in
    the trie and pandas' `nsmallest(n, 'distance', keep='first')` in the table
    scan, which keeps earlier rows first among equal distances. */
module Ranking {

  /** A candidate with its Hamming distance to the query (`TrieResultItem`,
      `PhashTreeResultItem`). */
  datatype Scored<T> = Scored(item: T, distance: nat)

  predicate SortedByDistance<T>(s: seq<Scored<T>>) {
    forall i, j :: 0 <= i < j < |s| ==> s[i].distance <= s[j].distance
  }

  /** Inserts `x` in front of the first element that is not closer than it. */
  function InsertByDistance<T>(x: Scored<T>, s: seq<Scored<T>>): (r: seq<Scored<T>>)
    requires SortedByDistance(s)
    ensures SortedByDistance(r)
    ensures multiset(r) == multiset(s) + multiset{x}
    ensures |r| == |s| + 1
  {
    if |s| == 0 || x.distance <= s[0].distance then [x] + s
    else
      var rest := InsertByDistance(x, s[1..]);
      InsertBehindHead(x, s, rest);
      [s[0]] + rest
  }

  /** Putting the head of `s` back in front of `x` inserted into the tail. */
  lemma InsertBehindHead<T>(x: Scored<T>, s: seq<Scored<T>>, rest: seq<Scored<T>>)
    requires SortedByDistance(s) && |s| > 0 && s[0].distance < x.distance
    requires SortedByDistance(rest) && multiset(rest) == multiset(s[1..]) + multiset{x}
    ensures SortedByDistance([s[0]] + rest)
    ensures multiset([s[0]] + rest) == multiset(s) + multiset{x}
  {
    assert s == [s[0]] + s[1..];
    forall k | 0 <= k < |rest|
      ensures s[0].distance <= rest[k].distance
    {
      assert rest[k] in multiset(rest);
      if rest[k] != x {
        assert rest[k] in multiset(s[1..]);
      }
    }
    var r := [s[0]] + rest;
    forall i, j | 0 <= i < j < |r|
      ensures r[i].distance <= r[j].distance
    {
      if i > 0 {
        assert r[i] == rest[i - 1] && r[j] == rest[j - 1];
      } else {
        assert r[j] == rest[j - 1];
      }
    }
  }

  /** Stable insertion sort: the first of two equally distant elements stays first. */
  function SortByDistance<T>(s: seq<Scored<T>>): (r: seq<Scored<T>>)
    ensures SortedByDistance(r)
    ensures multiset(r) == multiset(s)
    ensures |r| == |s|
  {
    if |s| == 0 then []
    else
      assert s == [s[0]] + s[1..];
      InsertByDistance(s[0], SortByDistance(s[1..]))
  }

  /** The results at distance `d`, in order. A reordering is stable exactly
      when it keeps each of these subsequences as it is. */
  function AtDistance<T>(s: seq<Scored<T>>, d: int): seq<Scored<T>>
  {
    if |s| == 0 then []
    else if s[0].distance == d then [s[0]] + AtDistance(s[1..], d)
    else AtDistance(s[1..], d)
  }

  lemma AtDistanceCons<T>(h: Scored<T>, t: seq<Scored<T>>, d: int)
    ensures AtDistance([h] + t, d) == (if h.distance == d then [h] else []) + AtDistance(t, d)
  {
    assert ([h] + t)[0] == h && ([h] + t)[1..] == t;
  }

  lemma {:induction false} AtDistanceConcat<T>(a: seq<Scored<T>>, b: seq<Scored<T>>, d: int)
    ensures AtDistance(a + b, d) == AtDistance(a, d) + AtDistance(b, d)
  {
    if |a| == 0 {
      assert a + b == b;
    } else {
      var h, tail := a[0], a[1..];
      AtDistanceConcat(tail, b, d);
      assert a == [h] + tail;
      assert a + b == [h] + (tail + b);
      AtDistanceCons(h, tail, d);
      AtDistanceCons(h, tail + b, d);
      var y, z := AtDistance(tail, d), AtDistance(b, d);
      if h.distance == d {
        assert [h] + (y + z) == ([h] + y) + z;
      } else {
        assert [] + (y + z) == y + z && [] + y == y;
      }
    }
  }

  /** The results at one distance in a prefix are a prefix of those in the whole. */
  lemma AtDistancePrefix<T>(s: seq<Scored<T>>, k: nat, d: int)
    requires k <= |s|
    ensures AtDistance(s[..k], d) <= AtDistance(s, d)
  {
    assert s == s[..k] + s[k..];
    AtDistanceConcat(s[..k], s[k..], d);
  }

  /** Inserting `x` puts it in front of every element as distant as it. */
  lemma {:induction false} InsertStable<T>(x: Scored<T>, s: seq<Scored<T>>, d: int)
    requires SortedByDistance(s)
    ensures AtDistance(InsertByDistance(x, s), d) == AtDistance([x], d) + AtDistance(s, d)
  {
    if |s| == 0 || x.distance <= s[0].distance {
      assert InsertByDistance(x, s) == [x] + s;
      AtDistanceConcat([x], s, d);
    } else {
      var rest := InsertByDistance(x, s[1..]);
      InsertStable(x, s[1..], d);
      assert InsertByDistance(x, s) == [s[0]] + rest;
      assert s == [s[0]] + s[1..];
      PassAtDistance(s[0], x, s[1..], rest, d);
    }
  }

  /** Moving `x` in front of an element nearer than it leaves every
      distance's subsequence as it is. */
  lemma PassAtDistance<T>(a: Scored<T>, x: Scored<T>, tail: seq<Scored<T>>, rest: seq<Scored<T>>, d: int)
    requires a.distance < x.distance
    requires AtDistance(rest, d) == AtDistance([x], d) + AtDistance(tail, d)
    ensures AtDistance([a] + rest, d) == AtDistance([x], d) + AtDistance([a] + tail, d)
  {
    var sa, sx := AtDistance([a], d), AtDistance([x], d);
    AtDistanceSingle(a, d);
    AtDistanceSingle(x, d);
    AtDistanceConcat([a], rest, d);
    AtDistanceConcat([a], tail, d);
    assert sa == [] || sx == [];
    assert sa + sx == sx + sa;
  }

  lemma AtDistanceSingle<T>(a: Scored<T>, d: int)
    ensures AtDistance([a], d) == if a.distance == d then [a] else []
  {
    assert [a][1..] == [];
  }

  /** The sort is stable: elements at equal distance keep their input order. */
  lemma {:induction false} SortStable<T>(s: seq<Scored<T>>, d: int)
    ensures AtDistance(SortByDistance(s), d) == AtDistance(s, d)
  {
    if |s| > 0 {
      SortStable(s[1..], d);
      InsertStable(s[0], SortByDistance(s[1..]), d);
      assert s == [s[0]] + s[1..];
      AtDistanceConcat([s[0]], s[1..], d);
    }
  }

  /** The items of a result list, in order. */
  function Items<T>(s: seq<Scored<T>>): (r: seq<T>)
    ensures |r| == |s|
    ensures forall i :: 0 <= i < |s| ==> r[i] == s[i].item
  {
    if |s| == 0 then [] else [s[0].item] + Items(s[1..])
  }

  lemma {:induction false} ItemsConcat<T>(a: seq<Scored<T>>, b: seq<Scored<T>>)
    ensures Items(a + b) == Items(a) + Items(b)
  {
  }

  lemma {:induction false} InsertItems<T>(x: Scored<T>, s: seq<Scored<T>>)
    requires SortedByDistance(s)
    ensures multiset(Items(InsertByDistance(x, s))) == multiset(Items(s)) + multiset{x.item}
  {
    if |s| > 0 && x.distance > s[0].distance {
      InsertItems(x, s[1..]);
      assert Items(s) == [s[0].item] + Items(s[1..]);
    }
  }

  /** Sorting keeps the multiset of items, not only the multiset of results. */
  lemma {:induction false} SortItems<T>(s: seq<Scored<T>>)
    ensures multiset(Items(SortByDistance(s))) == multiset(Items(s))
  {
    if |s| > 0 {
      SortItems(s[1..]);
      InsertItems(s[0], SortByDistance(s[1..]));
      assert Items(s) == [s[0].item] + Items(s[1..]);
    }
  }

  /** Python's `s[:n]` for an int `n`: a negative `n` drops elements from the end. */
  function PySliceTo<T>(s: seq<T>, n: int): (r: seq<T>)
    ensures n >= 0 ==> |r| == if n <= |s| then n else |s|
    ensures n < 0 ==> |r| == if |s| + n >= 0 then |s| + n else 0
    ensures r <= s
  {
    var stop := if n >= 0 then (if n <= |s| then n else |s|)
                else (if |s| + n >= 0 then |s| + n else 0);
    s[..stop]
  }

  /** A prefix of a sorted list is sorted. */
  lemma PrefixSorted<T>(s: seq<Scored<T>>, k: nat)
    requires SortedByDistance(s) && k <= |s|
    ensures SortedByDistance(s[..k])
  {
  }
}
