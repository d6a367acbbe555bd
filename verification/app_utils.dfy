/** The web app's general helpers: splitting an array into chunks of a given
    size (`splitArrayToChunks`) and reading a boolean from a string
    (`stringToBoolean`). */
module AppUtils {
  import opened Wrappers
  import opened JsText

  // ---------------------------------------------------------------------------
  // splitArrayToChunks

  /** The chunks of `array`, front to back: `k` elements each, the last one
      holding what is left. */
  function Chunks<T>(items: seq<T>, k: nat): (r: seq<seq<T>>)
    requires k > 0
    ensures |items| == 0 <==> |r| == 0
    decreases |items|
  {
    if |items| == 0 then []
    else if |items| <= k then [items]
    else [items[..k]] + Chunks(items[k..], k)
  }

  /** Concatenation of a sequence of chunks. */
  function Flatten<T>(chunks: seq<seq<T>>): seq<T> {
    if |chunks| == 0 then [] else chunks[0] + Flatten(chunks[1..])
  }

  lemma DivModUnique(n: int, k: int, q: int, m: int)
    requires k > 0 && n == q * k + m && 0 <= m < k
    ensures n / k == q && n % k == m
  {
    var q', m' := n / k, n % k;
    assert n == q' * k + m';
    assert (q - q') * k == m' - m;
    assert (q' - q) * k == m - m';
    if q > q' {
      MulAtLeast(q - q', k);
    } else if q < q' {
      MulAtLeast(q' - q, k);
    }
  }

  lemma {:induction false} MulAtLeast(d: nat, k: nat)
    requires d >= 1
    ensures d * k >= k
  {
    if d > 1 {
      MulAtLeast(d - 1, k);
      assert d * k == (d - 1) * k + k;
    }
  }

  lemma ChunksUnfold<T>(items: seq<T>, k: nat)
    requires k > 0 && |items| > k
    ensures Chunks(items, k) == [items[..k]] + Chunks(items[k..], k)
  {
  }

  /** Taking off one chunk's worth lowers the quotient by one and keeps the remainder. */
  lemma DivStep(i: int, k: int)
    requires k > 0 && i >= k
    ensures i / k == (i - k) / k + 1 && i % k == (i - k) % k
  {
    DivModUnique(i, k, (i - k) / k + 1, (i - k) % k);
  }

  /** Concatenating the chunks gives the array back. */
  lemma {:induction false} ChunksFlatten<T>(items: seq<T>, k: nat)
    requires k > 0
    ensures Flatten(Chunks(items, k)) == items
    decreases |items|
  {
    if |items| > k {
      ChunksUnfold(items, k);
      ChunksFlatten(items[k..], k);
      assert ([items[..k]] + Chunks(items[k..], k))[1..] == Chunks(items[k..], k);
      assert items == items[..k] + items[k..];
    }
  }

  /** There are `ceil(|items| / k)` chunks. */
  lemma {:induction false} ChunkCount<T>(items: seq<T>, k: nat)
    requires k > 0
    ensures |Chunks(items, k)| == (|items| + k - 1) / k
    decreases |items|
  {
    if |items| == 0 {
      DivModUnique(k - 1, k, 0, k - 1);
    } else if |items| <= k {
      DivModUnique(|items| + k - 1, k, 1, |items| - 1);
    } else {
      ChunksUnfold(items, k);
      ChunkCount(items[k..], k);
      DivStep(|items| + k - 1, k);
    }
  }

  /** Every chunk but the last has exactly `k` elements; the last has 1 to `k`. */
  lemma {:induction false} ChunkSizes<T>(items: seq<T>, k: nat)
    requires k > 0
    ensures forall j :: 0 <= j < |Chunks(items, k)| - 1 ==> |Chunks(items, k)[j]| == k
    ensures |Chunks(items, k)| > 0 ==> 1 <= |Chunks(items, k)[|Chunks(items, k)| - 1]| <= k
    decreases |items|
  {
    if |items| > k {
      ChunksUnfold(items, k);
      ChunkSizes(items[k..], k);
      var rest := Chunks(items[k..], k);
      var c := Chunks(items, k);
      assert forall j :: 1 <= j < |c| ==> c[j] == rest[j - 1];
    }
  }

  /** Element `i` sits in chunk `i / k` at position `i % k`. */
  lemma {:induction false} ChunkPlacement<T>(items: seq<T>, k: nat, i: nat)
    requires k > 0 && i < |items|
    ensures i / k < |Chunks(items, k)|
    ensures i % k < |Chunks(items, k)[i / k]|
    ensures Chunks(items, k)[i / k][i % k] == items[i]
    decreases |items|
  {
    if i < k {
      DivModUnique(i, k, 0, i);
      if |items| > k {
        ChunksUnfold(items, k);
      }
    } else {
      ChunksUnfold(items, k);
      ChunkPlacement(items[k..], k, i - k);
      DivStep(i, k);
      var rest := Chunks(items[k..], k);
      assert Chunks(items, k)[i / k] == rest[(i - k) / k];
      assert items[k..][i - k] == items[i];
    }
  }

  /** Appending one element either opens a new chunk (when the chunks so far are
      all full) or extends the last one. */
  lemma {:induction false} ChunksSnoc<T>(p: seq<T>, x: T, k: nat)
    requires k > 0
    ensures |p| % k == 0 ==> Chunks(p + [x], k) == Chunks(p, k) + [[x]]
    ensures |p| % k != 0 ==> |Chunks(p, k)| > 0
    ensures |p| % k != 0 ==>
              Chunks(p + [x], k) == Chunks(p, k)[..|Chunks(p, k)| - 1]
                                    + [Chunks(p, k)[|Chunks(p, k)| - 1] + [x]]
    decreases |p|
  {
    var q := p + [x];
    if |p| == 0 {
      assert q == [x];
    } else if |p| < k {
      DivModUnique(|p|, k, 0, |p|);
    } else if |p| == k {
      DivModUnique(|p|, k, 1, 0);
      ChunksUnfold(q, k);
      assert q[..k] == p && q[k..] == [x];
    } else {
      ChunksSnoc(p[k..], x, k);
      ChunksSnocPastFirst(p, x, k);
    }
  }

  /** The step of `ChunksSnoc` for a prefix longer than one chunk: the first
      chunk is unaffected. */
  lemma ChunksSnocPastFirst<T>(p: seq<T>, x: T, k: nat)
    requires k > 0 && |p| > k
    requires |p[k..]| % k == 0 ==> Chunks(p[k..] + [x], k) == Chunks(p[k..], k) + [[x]]
    requires |p[k..]| % k != 0 ==> |Chunks(p[k..], k)| > 0
    requires |p[k..]| % k != 0 ==>
               Chunks(p[k..] + [x], k) == Chunks(p[k..], k)[..|Chunks(p[k..], k)| - 1]
                                          + [Chunks(p[k..], k)[|Chunks(p[k..], k)| - 1] + [x]]
    ensures |p| % k == 0 ==> Chunks(p + [x], k) == Chunks(p, k) + [[x]]
    ensures |p| % k != 0 ==> |Chunks(p, k)| > 0
    ensures |p| % k != 0 ==>
              Chunks(p + [x], k) == Chunks(p, k)[..|Chunks(p, k)| - 1]
                                    + [Chunks(p, k)[|Chunks(p, k)| - 1] + [x]]
  {
    var t := p[k..];
    ChunksUnfold(p, k);
    ChunksUnfoldSnoc(p, x, k);
    RemainderAfterChunk(|p|, |t|, k);
    PrependChunk(p[..k], Chunks(t, k), Chunks(t + [x], k), x, |t| % k == 0);
  }

  lemma ChunksUnfoldSnoc<T>(p: seq<T>, x: T, k: nat)
    requires k > 0 && |p| > k
    ensures Chunks(p + [x], k) == [p[..k]] + Chunks(p[k..] + [x], k)
  {
    var q := p + [x];
    ChunksUnfold(q, k);
    assert q[..k] == p[..k];
    assert q[k..] == p[k..] + [x];
  }

  lemma RemainderAfterChunk(n: int, m: int, k: int)
    requires k > 0 && n >= k && m == n - k
    ensures n % k == m % k
  {
    DivStep(n, k);
  }

  /** A chunk put in front of both sides keeps the shape `ChunksSnoc` describes. */
  lemma PrependChunk<T>(a: seq<T>, c: seq<seq<T>>, c2: seq<seq<T>>, x: T, full: bool)
    requires full ==> c2 == c + [[x]]
    requires !full ==> |c| > 0 && c2 == c[..|c| - 1] + [c[|c| - 1] + [x]]
    ensures full ==> [a] + c2 == ([a] + c) + [[x]]
    ensures !full ==> [a] + c2 == ([a] + c)[..|c|] + [([a] + c)[|c|] + [x]]
  {
    if !full {
      assert ([a] + c)[..|c|] == [a] + c[..|c| - 1];
    }
  }

  /** Where element `i` of a prefix that already fills `c` chunks goes: a new
      chunk exactly when the prefix length is a multiple of `k`. */
  lemma ChunkIndexOfNext(i: nat, k: nat, c: nat)
    requires k > 0 && c == (i + k - 1) / k
    ensures i % k == 0 ==> i / k == c
    ensures i % k != 0 ==> c > 0 && i / k == c - 1
  {
    var q, m := i / k, i % k;
    if m == 0 {
      DivModUnique(i + k - 1, k, q, k - 1);
    } else {
      DivModUnique(i + k - 1, k, q + 1, m - 1);
    }
  }

  /** `splitArrayToChunks(items, chunkSize)`: the `reduce` that pushes element
      `i` onto chunk `floor(i / chunkSize)`, starting that chunk when it does
      not exist yet. A negative size throws; size 0 gives the whole array as one
      chunk. */
  method SplitArrayToChunks<T>(items: seq<T>, chunkSize: int) returns (r: Result<seq<seq<T>>>)
    ensures r.Failure? <==> chunkSize < 0
    ensures r.Failure? ==> r.error == Thrown("Chunk size must be greater than 0")
    ensures chunkSize == 0 ==> r == Success([items])
    ensures chunkSize > 0 ==> r == Success(Chunks(items, chunkSize))
  {
    if chunkSize < 0 {
      return Failure(Thrown("Chunk size must be greater than 0"));
    }
    if chunkSize == 0 {
      return Success([items]);
    }
    var k: nat := chunkSize;
    var chunks: seq<seq<T>> := [];
    var i := 0;
    while i < |items|
      invariant 0 <= i <= |items|
      invariant chunks == Chunks(items[..i], k)
      invariant |chunks| == (i + k - 1) / k
    {
      ChunkIndexOfNext(i, k, |chunks|);
      ChunksSnoc(items[..i], items[i], k);
      assert items[..i + 1] == items[..i] + [items[i]];
      var chunkIndex := i / k;
      if chunkIndex >= |chunks| {
        chunks := chunks + [[items[i]]];
      } else {
        chunks := chunks[chunkIndex := chunks[chunkIndex] + [items[i]]];
      }
      ChunkCount(items[..i + 1], k);
      i := i + 1;
    }
    assert items[..i] == items;
    return Success(chunks);
  }

  // ---------------------------------------------------------------------------
  // stringToBoolean

  /** A JavaScript argument: a string, or a value of another `typeof`. */
  datatype JsArg = JsString(s: string) | NotString(typeName: string)

  /** `stringToBoolean(value)`: trims and lower-cases a string, accepts exactly
      "true" and "false", and throws on anything else. */
  function StringToBoolean(value: JsArg): (r: Result<bool>)
    ensures r.Success? ==> value.JsString?
    ensures r == Success(true) <==> value.JsString? && Lower(Trim(value.s)) == "true"
    ensures r == Success(false) <==> value.JsString? && Lower(Trim(value.s)) == "false"
    ensures r.Failure? ==> r.error.Thrown?
  {
    match value
    case NotString(t) =>
      Failure(Thrown("Invalid boolean string, expected 'string', got '" + t + "'"))
    case JsString(s) =>
      var v := Lower(Trim(s));
      if v == "true" then Success(true)
      else if v == "false" then Success(false)
      else Failure(Thrown("Invalid boolean string, expected 'true' or 'false', got '" + s + "'"))
  }

  /** Any capitalisation of "true" or "false", with any whitespace around it,
      reads as that boolean. */
  lemma StringToBooleanAcceptsPaddedWord(pre: string, word: string, post: string, b: bool)
    requires forall i :: 0 <= i < |pre| ==> IsJsWhitespace(pre[i])
    requires forall i :: 0 <= i < |post| ==> IsJsWhitespace(post[i])
    requires Lower(word) == (if b then "true" else "false")
    ensures StringToBoolean(JsString(pre + word + post)) == Success(b)
  {
    assert LowerChar(word[0]) == Lower(word)[0];
    assert LowerChar(word[|word| - 1]) == Lower(word)[|word| - 1];
    TrimPadded(pre, word, post);
  }

  /** The string forms of the two booleans round-trip. */
  lemma StringToBooleanRoundTrip(b: bool)
    ensures StringToBoolean(JsString(if b then "true" else "false")) == Success(b)
  {
    var w := if b then "true" else "false";
    assert w[0] == 't' || w[0] == 'f';
    assert w[|w| - 1] == 'e';
    TrimClean(w);
    LowerOfLowercase(w);
  }
}
