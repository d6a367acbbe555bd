# magicdex card matching, modelled in Dafny

magicdex recognises Magic: The Gathering cards from a webcam picture. It
computes a perceptual hash (phash) of the picture and looks up the catalog
card whose hash is closest in Hamming distance. This project models the
integer core of that matching, together with the small pure helpers of the
web app that surround it:

- `BinaryHammingTrie`:
  - a binary trie over the zero-padded bit strings of the hashes;
  - leaf splitting on insert;
  - an exhaustive `find` that returns every leaf within a tolerance, sorted by distance;
  - `walk` and `len`.
  
  The trie is modelled as the code is written:
  - the displaced item of a split leaf is dropped;
  - re-inserting a value whose whole path already exists stores nothing;
  - the bit width can grow after items were placed;
  - `find` never prunes.

  No equivalence with a brute-force scan is claimed, because the code does not
  have one.
- `TTLCache`:
  - each key maps to a set of timestamped values, and equality of entries is by value;
  - expiry is lazy and happens on reads;
  - every method is modelled, with the clock as an explicit `now` parameter.
- The two hash indexes:
  - `PhashHammingTrie` (over the trie) and `PhashBitsDataFrame` (a linear scan of the catalog);
  - their shared default-tolerance policy;
  - the top-`n` cut;
  - the `CardPhashItem` hash, its `^` operator and its validator;
  - result equality that ignores the distance.
- `cv2_layer`: `hamming_distance` for every argument type, `order_points`, and the `hash_size` guard of `phash`.
- The browser's distance functions (`hammingDistanceString`, `hammingDistanceBigInt`, `hammingDistanceBinaryArray`) and `match_phash`.
- The web app's helpers:
  - `splitArrayToChunks` and `stringToBoolean`;
  - the collection-table filter predicates;
  - the bulk-import rules: amount, foil, row merging, foil normalisation, partition and retry text;
  - the card transform and image-address choice;
  - the sign-in error text.

The modules follow the source files:

| module | models |
|---|---|
| `HammingTrie`, `HammingTrieProperties` | `bl/hamming_trie.py` |
| `TtlCache`, `TtlCacheProperties` | `bl/cache_layer.py` |
| `Phash` | `bl/phash.py` |
| `Cv2Layer` | `bl/cv2_layer.py` (integer parts) |
| `JsUtils` | `public/js/utils.js` |
| `AppUtils` | `utils/index.ts` |
| `CardFilters` | `CardsTable/filtersDefinitions.ts` |
| `ImportBulk` | `ImportBulk/index.tsx` |
| `CardImage` | `CardImage/index.tsx` |
| `AuthErrors` | `AuthErrorText/index.tsx` |

Shared modules:
- `Bits`: Python's `int.bit_length`, `bin(v)[2:].zfill(w)`, `int(s, 2)`, `^`, `&` and the bit count.
- `JsText`: JavaScript's `trim`, `toLowerCase`, `split` and `join`.
- `Ranking`: the stable sort by distance.
- `Numerals`: decimal digits.
- `Wrappers`: `Option` and `Result`.

A thrown exception is a `Failure` carrying the error kind.

## Model

| member | source | states |
|---|---|---|
| HammingTrie.EmptyTrie | apps/python-workspace/webcam_import_app/bl/hamming_trie.py:82-84 | A new trie has a bare root, bit length 0 and node count 0, and satisfies the trie invariant: only non-root leaves hold items, every item fits the width, and the node count is the number of nodes below the root |
| HammingTrie.NodeOkWiden | apps/python-workspace/webcam_import_app/bl/hamming_trie.py:43-54 | Raising the shared `item_bit_length` keeps every node well shaped, so a wider width never breaks the trie invariant |
| HammingTrie.SplitLeaf | apps/python-workspace/webcam_import_app/bl/hamming_trie.py:120-126 | Splitting a leaf adds exactly one node, keeps the shape, and leaves the incoming item as the only stored item below; the displaced item is gone |
| HammingTrie.Descend | apps/python-workspace/webcam_import_app/bl/hamming_trie.py:119-142 | Following the value's bits from a node creates at most one node per remaining bit plus one for a split; creating none leaves the subtree exactly as it was |
| HammingTrie.Step | apps/python-workspace/webcam_import_app/bl/hamming_trie.py:128-142 | One loop iteration at a non-leaf node keeps the invariant and creates at most one node per remaining bit; creating none changes nothing |
| HammingTrie.DescendEntries | apps/python-workspace/webcam_import_app/bl/hamming_trie.py:119-142 | After the descent, a created node means the new item is stored; every stored item is the new one or an old one; at most one item more is stored |
| HammingTrie.StepEntries | apps/python-workspace/webcam_import_app/bl/hamming_trie.py:128-142 | The same facts for a single loop iteration at a non-leaf node |
| HammingTrie.Insert | apps/python-workspace/webcam_import_app/bl/hamming_trie.py:108-142 | (1) `item_bit_length` becomes max(old, `value.bit_length()`) and never decreases. (2) `node_count` grows by at most the width. (3) An unchanged count means an unchanged tree. (4) When nodes were added, the new item is stored. (5) Every stored item is the new one or was stored before. (6) At most one more item is stored. (7) The invariant is kept |
| HammingTrie.Extend | apps/python-workspace/webcam_import_app/bl/hamming_trie.py:104-106 | Inserting a list keeps the invariant; the width becomes the largest bit length seen; every stored item comes from the list or the old trie, and at most one per list element is added |
| HammingTrie.Build | apps/python-workspace/webcam_import_app/bl/hamming_trie.py:82-86 | A trie built from items is valid and its width is the largest bit length among them |
| HammingTrie.Collect | apps/python-workspace/webcam_import_app/bl/hamming_trie.py:148-161 | Every leaf the recursive search reports has a cost within the tolerance |
| HammingTrie.Find | apps/python-workspace/webcam_import_app/bl/hamming_trie.py:144-164 | `IndexError` exactly when the query has more digits than the stored strings and the trie has a leaf. Otherwise the results are in non-decreasing distance order, each within the tolerance |
| HammingTrieProperties.CollectIsWithin | apps/python-workspace/webcam_import_app/bl/hamming_trie.py:148-161 | From a node reached along a path, the search returns, in walk order, exactly the leaves below it whose score is within the tolerance. A leaf's score is its path's mismatches with the query's padded bits, plus the mismatches of the leaf's own padded bits from its depth on |
| HammingTrieProperties.FindScoresLeaves | apps/python-workspace/webcam_import_app/bl/hamming_trie.py:144-164 | For a query that fits the width, `find` is the distance-sorted list of the scored leaves within tolerance |
| HammingTrieProperties.LeavesAreLeafEntries | apps/python-workspace/webcam_import_app/bl/hamming_trie.py:166-179 | The leaves `find` scores are the leaves `walk` yields, in the same order |
| HammingTrieProperties.ScoreBound | apps/python-workspace/webcam_import_app/bl/hamming_trie.py:150-151 | No leaf scores more than the width |
| HammingTrieProperties.WithinAll | apps/python-workspace/webcam_import_app/bl/hamming_trie.py:150-153 | At a tolerance of at least the width, every leaf is kept, in order |
| HammingTrieProperties.FindAllAtFullTolerance | apps/python-workspace/webcam_import_app/bl/hamming_trie.py:144-179 | For a query that fits the width, at tolerance of at least the width, `find` succeeds and returns every item `walk` yields, each exactly once (equal multisets) |
| HammingTrieProperties.WithinMonotone | apps/python-workspace/webcam_import_app/bl/hamming_trie.py:152-153 | A larger tolerance keeps every leaf a smaller one keeps |
| HammingTrieProperties.FindMonotone | apps/python-workspace/webcam_import_app/bl/hamming_trie.py:144-164 | Raising the tolerance never changes whether `find` fails, and never loses a result |
| HammingTrieProperties.FindOnEmptyTrie | apps/python-workspace/webcam_import_app/bl/hamming_trie.py:148-164 | A trie with no inserts returns `[]` for every query and tolerance; the root is never reported |
| HammingTrieProperties.WalkWithinLen | apps/python-workspace/webcam_import_app/bl/hamming_trie.py:184-185 | `len` is the node count (all nodes but the root), not the item count; `walk` yields at most that many items |
| HammingTrieProperties.LeafCountBound | apps/python-workspace/webcam_import_app/bl/hamming_trie.py:166-179 | A subtree holds no more stored items than it has nodes (the root excepted) |
| HammingTrieProperties.DescendAlongFullPath | apps/python-workspace/webcam_import_app/bl/hamming_trie.py:128-142 | When every node on the value's path already exists as an inner node, the descent creates nothing and changes nothing |
| HammingTrieProperties.InsertOnFullPathStoresNothing | apps/python-workspace/webcam_import_app/bl/hamming_trie.py:108-142 | Re-inserting a value whose full path exists as inner nodes returns the trie unchanged; the item is not stored |
| HammingTrieProperties.SmallPaddings | apps/python-workspace/webcam_import_app/bl/hamming_trie.py:115-116 | 3 and 2 both have two bits, padded to "11" and "10" |
| HammingTrieProperties.InsertThree | apps/python-workspace/webcam_import_app/bl/hamming_trie.py:108-142 | Inserting 3 into an empty trie gives width 2, one leaf on the 1 branch, node count 1 |
| HammingTrieProperties.InsertTwoAfterThree | apps/python-workspace/webcam_import_app/bl/hamming_trie.py:119-142 | Inserting 2 after 3 splits the leaf and creates two leaves that both hold 2 |
| HammingTrieProperties.InsertThreeThenTwo | apps/python-workspace/webcam_import_app/bl/hamming_trie.py:120-142 | The trie after inserting 3 then 2 is exactly a root, an inner node and two leaves holding "two", with node count 3 |
| HammingTrieProperties.WalkOfSplitPair | apps/python-workspace/webcam_import_app/bl/hamming_trie.py:166-179 | `walk` of that trie yields "two" twice |
| HammingTrieProperties.DisplacedItemIsDropped | apps/python-workspace/webcam_import_app/bl/hamming_trie.py:120-126 | After inserting "three" (3) then "two" (2), `walk` yields only "two", twice, and `len` is 3: the split lost the displaced item |
| HammingTrieProperties.FindOnSplitPair | apps/python-workspace/webcam_import_app/bl/hamming_trie.py:144-164 | The trie left by inserting 3 and then 2 is valid, and `find(2, 2)` returns the item of 2 twice, at distances 0 and 1, once from each leaf of the split pair |
| HammingTrieProperties.LongQueryOnNarrowTrieFails | apps/python-workspace/webcam_import_app/bl/hamming_trie.py:146-151 | Querying 31 (five digits) in a trie holding only 0 (width one) raises `IndexError` |
| HammingTrieProperties.InsertZero | apps/python-workspace/webcam_import_app/bl/hamming_trie.py:113-134 | Inserting 0 keeps width 0; `bin(0)` still gives one digit, so 0 becomes a leaf on the 0 branch |
| HammingTrieProperties.BitLengthOf31 | apps/python-workspace/webcam_import_app/bl/hamming_trie.py:113 | `(31).bit_length()` is 5 |
| TtlCache.NewCache | apps/python-workspace/webcam_import_app/bl/cache_layer.py:19-21 | A new cache is empty and keeps the given TTL |
| TtlCache.Live | apps/python-workspace/webcam_import_app/bl/cache_layer.py:25-27 | Keeps exactly the entries whose age is not strictly greater than the TTL, with their timestamps unchanged |
| TtlCache.Get | apps/python-workspace/webcam_import_app/bl/cache_layer.py:47-52 | (1) Returns exactly the values of the key whose entries are at most TTL old. (2) Removes the stale entries of that key and keeps the live ones' timestamps. (3) Never deletes the key; an absent key is inserted empty. (4) Other keys are untouched |
| TtlCache.Contains | apps/python-workspace/webcam_import_app/bl/cache_layer.py:57-59 | `key in cache` is always true, because the read before the test puts the key in; it leaves the cache as the read does |
| TtlCache.AddValues | apps/python-workspace/webcam_import_app/bl/cache_layer.py:36-42 | A key's set gains only values not already held; every given value is stamped `now`; other values keep their stamps |
| TtlCache.Update | apps/python-workspace/webcam_import_app/bl/cache_layer.py:36-42 | The keys gained are those given a non-empty list. Every given value is stamped `now`. Keys not given values are untouched |
| TtlCache.SetItem | apps/python-workspace/webcam_import_app/bl/cache_layer.py:54-55 | Replaces the key's whole entry set with the single value stamped `now`; other keys are untouched |
| TtlCache.Pop | apps/python-workspace/webcam_import_app/bl/cache_layer.py:32-34 | Returns every stored value of the key without a TTL check (none for an absent key) and removes the key; other keys are untouched |
| TtlCache.Delete | apps/python-workspace/webcam_import_app/bl/cache_layer.py:61-65 | Removes the key if present; an absent key changes nothing else |
| TtlCache.Clear | apps/python-workspace/webcam_import_app/bl/cache_layer.py:44-45 | Empties the cache, keeping the TTL |
| TtlCache.ValidateAll | apps/python-workspace/webcam_import_app/bl/cache_layer.py:23-30 | Every key keeps exactly its live entries, and a key left with none is deleted |
| TtlCache.Len | apps/python-workspace/webcam_import_app/bl/cache_layer.py:72-74 | Sweeps the cache first, then counts the keys that still have a live entry |
| TtlCacheProperties.ExpiryBoundary | apps/python-workspace/webcam_import_app/bl/cache_layer.py:47-52 | A value exactly TTL old is still served; any later read returns nothing |
| TtlCacheProperties.ExpiredStaysExpired | apps/python-workspace/webcam_import_app/bl/cache_layer.py:50 | An entry that is stale at one time is stale at every later time |
| TtlCacheProperties.GetIdempotent | apps/python-workspace/webcam_import_app/bl/cache_layer.py:47-52 | A second read at the same time returns the same values and changes nothing |
| TtlCacheProperties.ContainsAfterExpiry | apps/python-workspace/webcam_import_app/bl/cache_layer.py:57-59 | After its only value expired, a key reads empty yet still counts as contained |
| TtlCacheProperties.UpdateRefreshes | apps/python-workspace/webcam_import_app/bl/cache_layer.py:36-42 | Re-adding a held value refreshes its timestamp without growing the key's set, because entries compare by value |
| TtlCacheProperties.ValidateAllKeepsReads | apps/python-workspace/webcam_import_app/bl/cache_layer.py:23-30 | A sweep does not change what any read returns |
| TtlCacheProperties.LenCountsLiveKeys | apps/python-workspace/webcam_import_app/bl/cache_layer.py:72-74 | `len` is the number of keys a read would find non-empty |
| TtlCacheProperties.PopTwice | apps/python-workspace/webcam_import_app/bl/cache_layer.py:32-34 | After `pop`, popping again returns nothing and changes nothing |
| TtlCacheProperties.DefaultTtlScenario | apps/python-workspace/webcam_import_app/bl/cache_layer.py:19-21 | With the default 5-second TTL, a value set at 0 is served at 5 and gone at 5.5, where `len` drops from 1 to 0 |
| Phash.DefaultTolerance | apps/python-workspace/webcam_import_app/bl/phash.py:25-27 | The default tolerance is the largest integer not above 3/8 of the bit length |
| Phash.DefaultTolerances | apps/python-workspace/webcam_import_app/bl/phash.py:25-27 | 24, 96 and 384 for 64, 256 and 1024 bits |
| Phash.ResolveTolerance | apps/python-workspace/webcam_import_app/bl/phash.py:99 | A missing or zero tolerance becomes the default; any other is kept |
| Phash.PyHash | apps/python-workspace/webcam_import_app/bl/phash.py:68-69 | `hash(item)`: the phash itself below 2^63, otherwise the phash reduced modulo 2^61 - 1 |
| Phash.CardXor | apps/python-workspace/webcam_import_app/bl/phash.py:61-66 | As written: for hashes below 2^63, `item ^ k` is `phash ^ k` and `item ^ other` is the xor of the two phashes |
| Phash.CardXorReducesWideHashes | apps/python-workspace/webcam_import_app/bl/phash.py:61-69 | For phash = 2^63, `item ^ 0` gives 4, while `phash ^ 0` is 2^63 |
| Phash.CardXorIntended | apps/python-workspace/webcam_import_app/bl/phash.py:61-66 | Corrected operator: the xor of the phashes, zero exactly when they are equal |
| Phash.CardXorIntendedProperties | apps/python-workspace/webcam_import_app/bl/phash.py:61-66 | The corrected operator's bit count is the Hamming distance, and xor-ing again with `k` gives the phash back |
| Phash.CardXorAgreesBelowHashRange | apps/python-workspace/webcam_import_app/bl/phash.py:61-69 | As written and corrected agree whenever both hashes are below 2^63 |
| Phash.PyIntBase2 | apps/python-workspace/webcam_import_app/bl/phash.py:55 | `int(s, 2)`: a successful parse of an unsigned string is the number its binary digits spell, most significant first |
| Phash.UnsignedBinary | apps/python-workspace/webcam_import_app/bl/phash.py:55 | Every non-empty string of 0s and 1s parses |
| Phash.JoinBitInts | apps/python-workspace/webcam_import_app/bl/phash.py:55 | Joining the decimal strings of a 0/1 array gives exactly that bit string |
| Phash.ValidatePhash | apps/python-workspace/webcam_import_app/bl/phash.py:52-56 | Anything but an array passes through unchanged; an empty array is rejected |
| Phash.ValidateBitArray | apps/python-workspace/webcam_import_app/bl/phash.py:52-56 | A non-empty 0/1 array becomes the integer its bits spell, most significant first |
| Phash.ValidatePaddedRoundTrip | apps/python-workspace/webcam_import_app/bl/phash.py:52-56 | Writing a hash as a zero-padded bit array and validating it gives the hash back |
| Phash.NonBinaryElementRejected | apps/python-workspace/webcam_import_app/bl/phash.py:55 | An array with an element from 2 to 9 is rejected |
| Phash.ScoreCatalog | apps/python-workspace/webcam_import_app/bl/phash.py:102 | Each catalog row, in order, gets the Hamming distance between its phash and the query |
| Phash.TakeSmallest | apps/python-workspace/webcam_import_app/bl/phash.py:103 | A prefix of the sorted rows, of length `n` capped by the catalog size; none for `n <= 0` |
| Phash.WithinTolerance | apps/python-workspace/webcam_import_app/bl/phash.py:104 | Keeps exactly the results within tolerance and keeps them sorted; a first result within tolerance stays first |
| Phash.WithinToleranceKeeps | apps/python-workspace/webcam_import_app/bl/phash.py:104 | The filter keeps each row at most as often as it occurs, and leaves a list whose rows are all within tolerance unchanged |
| Phash.NearestWithin | apps/python-workspace/webcam_import_app/bl/phash.py:103-104 | `nsmallest(n)` then the tolerance filter, on scored rows. (1) At most `n` rows, sorted and within tolerance. (2) A sub-multiset of the rows. (3) For `n >= 0`, a row within tolerance is left out only when `n` rows came back, none farther than it |
| Phash.ScanFind | apps/python-workspace/webcam_import_app/bl/phash.py:97-110 | (1) At most `n` results, each a catalog card with its true distance, each at most as often as the catalog holds it (a sub-multiset of the scored catalog). (2) Each within the resolved tolerance. (3) Sorted by distance. (4) For `n >= 0`, a scored card within tolerance is left out only when `n` results came back, none farther than it: the `n` nearest cards |
| Phash.TopNearest | apps/python-workspace/webcam_import_app/bl/phash.py:103 | A row of a sorted list that `nsmallest(n)` leaves out is no nearer than any of the `n` it keeps, and exactly `n` are kept |
| Phash.ScanFindAll | apps/python-workspace/webcam_import_app/bl/phash.py:103-104 | With `n` at least the catalog size, a card is in the result exactly when its distance is within the resolved tolerance |
| Phash.WithinToleranceAtDistance | apps/python-workspace/webcam_import_app/bl/phash.py:104 | The mask keeps all rows at a distance within tolerance, in their order, and no row at a distance beyond it |
| Phash.NearestKeepsTableOrder | apps/python-workspace/webcam_import_app/bl/phash.py:103-104 | `keep='first'`: at each distance, the kept rows are the earliest rows of the table at that distance, in table order. A tie at the cut goes to the earlier rows. When `n` covers the table, every row within tolerance is kept, in table order |
| Phash.ScanFindKeepsCatalogOrder | apps/python-workspace/webcam_import_app/bl/phash.py:102-104 | At each distance, the scan's results are the first scored catalog rows at that distance, in catalog order |
| Phash.ScanFindBest | apps/python-workspace/webcam_import_app/bl/phash.py:103-104 | For `n >= 1`, if some card is within tolerance, the result is non-empty and its head is no farther than that card |
| Phash.ScanResultsDistinct | apps/python-workspace/webcam_import_app/bl/phash.py:78-110 | For a catalog holding each card once, no two scan results compare equal as `PhashTreeResultItem`s |
| Phash.SortedHeadIsBest | apps/python-workspace/webcam_import_app/bl/phash.py:103 | The head of the sorted catalog is no farther than any catalog card |
| Phash.SortedHeadAtMost | apps/python-workspace/webcam_import_app/bl/phash.py:103 | The head of a distance-sorted list is no farther than any of its members |
| Phash.ScanZeroToleranceIsDefault | apps/python-workspace/webcam_import_app/bl/phash.py:99 | The scan with tolerance 0 is the scan with the default tolerance |
| Phash.CardEntries | apps/python-workspace/webcam_import_app/bl/phash.py:119-123 | Each catalog card is inserted under its phash, in catalog order |
| Phash.TrieIndex | apps/python-workspace/webcam_import_app/bl/phash.py:119-123 | The trie index is valid, its width is the largest phash bit length, and everything it stores is a catalog card under its own phash |
| Phash.TrieFind | apps/python-workspace/webcam_import_app/bl/phash.py:127-135 | Fails exactly when the trie search fails. Otherwise it is exactly `results[:n]` of the trie's sorted list, so it is sorted and every result is within the resolved tolerance |
| Phash.TrieZeroToleranceIsDefault | apps/python-workspace/webcam_import_app/bl/phash.py:129 | The trie search with tolerance 0 is the one with the default tolerance |
| Phash.TrieResultsMayRepeat | apps/python-workspace/webcam_import_app/bl/phash.py:78-81 | On the split pair that inserting 3 and then a card under 2 leaves, the trie front-end returns that card twice, at distances 0 and 1: two results that differ but compare equal, since `PhashTreeResultItem` equality ignores the distance |
| Phash.NegativeCountDiffers | apps/python-workspace/webcam_import_app/bl/phash.py:98-135 | With `n = -1` the scan returns nothing, while the trie front-end returns all but the last result (`results[:-1]`) |
| Cv2Layer.CountDifferent | apps/python-workspace/webcam_import_app/bl/cv2_layer.py:215 | The count of differing positions of two equal-length arrays is at most their length, and zero exactly when they are equal |
| Cv2Layer.BroadcastLength | apps/python-workspace/webcam_import_app/bl/cv2_layer.py:215 | The element-wise comparison of two broadcastable arrays has the length of one of them and no more than the longer. It is empty when either array is empty, and it keeps the common length when the lengths are equal |
| Cv2Layer.ArrayDistance | apps/python-workspace/webcam_import_app/bl/cv2_layer.py:214-215 | `ValueError` exactly when the lengths do not broadcast. Equal lengths give the count of differing positions. No result exceeds the length of the broadcast comparison, which is 0 when either array is empty |
| Cv2Layer.HammingDistanceAsWritten | apps/python-workspace/webcam_import_app/bl/cv2_layer.py:209-226 | As written. (1) Two ints or two arrays agree with the corrected version. (2) An array and an int count every position of the broadcast comparison: the padded digit count, or the array length when the int has one digit, so an empty array gives 0. They raise when the lengths do not broadcast. (3) Other types raise `ValueError` |
| Cv2Layer.MixedDistanceAsWritten | apps/python-workspace/webcam_import_app/bl/cv2_layer.py:217-223 | As written, the array [0, 1] and the int 1, which it spells, are at distance 2 in either order; corrected, they are at distance 0. An empty array against 0 or 1 is at distance 0 |
| Cv2Layer.HammingDistance | apps/python-workspace/webcam_import_app/bl/cv2_layer.py:209-226 | Corrected `hamming_distance`. It fails with `ValueError` exactly for an unsupported type or lengths that do not broadcast. Two arrays are at most the length of their broadcast comparison apart |
| Cv2Layer.MixedDistanceIntended | apps/python-workspace/webcam_import_app/bl/cv2_layer.py:217-223 | Corrected, a bit array and an int that fits it are as far apart as the int the bits spell and that int, in either order |
| Cv2Layer.IntDistanceZero | apps/python-workspace/webcam_import_app/bl/cv2_layer.py:211-212 | Two ints are the bit count of their xor apart; the distance is zero exactly when they are equal |
| Cv2Layer.DistanceSymmetric | apps/python-workspace/webcam_import_app/bl/cv2_layer.py:209-226 | The distance does not depend on the order of the arguments |
| Cv2Layer.ArrayDistanceCountsPositions | apps/python-workspace/webcam_import_app/bl/cv2_layer.py:214-215 | Two equal-length arrays are as far apart as the number of positions where they differ |
| Cv2Layer.BitArrayMatchesInt | apps/python-workspace/webcam_import_app/bl/cv2_layer.py:211-215 | Two bit arrays are as far apart as the ints they spell |
| Cv2Layer.PhashValue | apps/python-workspace/webcam_import_app/bl/cv2_layer.py:195-202 | `ValueError` exactly when `hash_size < 2`. Otherwise either an int below 2^(hash_size²) or a 0/1 array of hash_size² elements |
| Cv2Layer.PhashFormsAgree | apps/python-workspace/webcam_import_app/bl/cv2_layer.py:195-199 | Two hashes are as far apart in int form as in array form |
| Cv2Layer.Sums | apps/python-workspace/webcam_import_app/bl/cv2_layer.py:63 | One x + y per point |
| Cv2Layer.Diffs | apps/python-workspace/webcam_import_app/bl/cv2_layer.py:64 | One y - x per point |
| Cv2Layer.FirstArgMin | apps/python-workspace/webcam_import_app/bl/cv2_layer.py:66-67 | `np.argmin`: an index of a least key with no least key before it |
| Cv2Layer.FirstArgMax | apps/python-workspace/webcam_import_app/bl/cv2_layer.py:68-69 | `np.argmax`: an index of a greatest key with no greatest key before it |
| Cv2Layer.FirstMinUnique | apps/python-workspace/webcam_import_app/bl/cv2_layer.py:66-67 | The first least index is unique |
| Cv2Layer.FirstMaxUnique | apps/python-workspace/webcam_import_app/bl/cv2_layer.py:68-69 | The first greatest index is unique |
| Cv2Layer.ArgMin | apps/python-workspace/webcam_import_app/bl/cv2_layer.py:66-67 | The scanning loop finds the first least key |
| Cv2Layer.ArgMax | apps/python-workspace/webcam_import_app/bl/cv2_layer.py:68-69 | The scanning loop finds the first greatest key |
| Cv2Layer.OrderPoints | apps/python-workspace/webcam_import_app/bl/cv2_layer.py:53-70 | (1) `ValueError` for no points. (2) Otherwise four of the input points. (3) Top-left has the least x + y, top-right the least y - x, bottom-right the greatest x + y, bottom-left the greatest y - x, the first such on ties |
| Cv2Layer.CornersExtremal | apps/python-workspace/webcam_import_app/bl/cv2_layer.py:61-70 | The four chosen corners are input points and are extremal for their key against every input point |
| Cv2Layer.AxisAlignedRectangle | apps/python-workspace/webcam_import_app/bl/cv2_layer.py:53-70 | The corners of a shuffled axis-aligned rectangle come out as top-left, top-right, bottom-right, bottom-left |
| JsUtils.BinaryString | apps/magicdex-app/public/js/utils.js:6 | `toString(2)`: at least one digit, every digit 0 or 1 |
| JsUtils.CountOnesBinary | apps/magicdex-app/public/js/utils.js:6 | The number of "1" digits of the binary string is the bit count |
| JsUtils.HammingDistanceString | apps/magicdex-app/public/js/utils.js:5-7 | The bit count of the xor, zero exactly when the two hashes are equal |
| JsUtils.HammingDistanceBigInt | apps/magicdex-app/public/js/utils.js:9-17 | The clear-lowest-bit loop computes the bit count of the xor, the same as the string version |
| JsUtils.ToInt32 | apps/magicdex-app/public/js/utils.js:22 | ToInt32: a signed 32-bit value congruent to the input modulo 2^32, equal to it when it already fits |
| JsUtils.JsXor | apps/magicdex-app/public/js/utils.js:22 | Number `^` gives a signed 32-bit result, equal to the integer xor for non-negative 31-bit operands |
| JsUtils.XorOfWords | apps/magicdex-app/public/js/utils.js:22 | The xor of two 32-bit words fits a word, and is below 2^31 for 31-bit operands |
| JsUtils.JsXorOfBits | apps/magicdex-app/public/js/utils.js:22 | For 0/1 operands, `^` is 1 exactly when they differ |
| JsUtils.XorSumOfBits | apps/magicdex-app/public/js/utils.js:19-25 | For 0/1 arrays, the running sum of `a[i] ^ b[i]` counts the differing positions of the prefix |
| JsUtils.HammingDistanceBinaryArray | apps/magicdex-app/public/js/utils.js:19-25 | The loop sums `a[i] ^ b[i]` over the indices of `a`; for 0/1 arrays with `b` no shorter, that is the number of differing positions |
| JsUtils.DistancesAgree | apps/magicdex-app/public/js/utils.js:5-25 | The array distance of two bit arrays equals the string distance of the numbers they spell |
| JsUtils.MissingElementsCountAsZero | apps/magicdex-app/public/js/utils.js:19-25 | Against an empty `b`, every missing element reads as 0, so the sum counts the ones of `a` |
| JsUtils.Distances | apps/magicdex-app/public/js/utils.js:230-235 | The distance column holds each row's string distance to the query, in order |
| JsUtils.MatchPhash | apps/magicdex-app/public/js/utils.js:229-255 | (1) `null` exactly when every row is farther than the threshold. (2) Otherwise the fields of the first least-distance row, with its distance, which is within the threshold and no greater than any row's. (3) Every earlier row is strictly farther |
| JsUtils.ExactRowMatches | apps/magicdex-app/public/js/utils.js:229-255 | A row holding the query hash is always matched, at distance 0 |
| AppUtils.Chunks | apps/magicdex-app/utils/index.ts:20-28 | For a positive size, no chunks exactly when the input is empty |
| AppUtils.ChunksFlatten | apps/magicdex-app/utils/index.ts:20-28 | The chunks concatenate back to the input |
| AppUtils.ChunkCount | apps/magicdex-app/utils/index.ts:20-28 | There are ceil(length / size) chunks |
| AppUtils.ChunkSizes | apps/magicdex-app/utils/index.ts:20-30 | Every chunk but the last has exactly `chunkSize` elements; the last has between 1 and `chunkSize` |
| AppUtils.ChunkPlacement | apps/magicdex-app/utils/index.ts:21-25 | Element `i` is element `i % k` of chunk `floor(i / k)` |
| AppUtils.ChunksSnoc | apps/magicdex-app/utils/index.ts:20-28 | One `reduce` step: a new item starts a new chunk exactly when the items before fill whole chunks, and otherwise joins the last chunk |
| AppUtils.SplitArrayToChunks | apps/magicdex-app/utils/index.ts:13-31 | (1) Throws exactly when `chunkSize < 0`, with the fixed message. (2) Size 0 gives `[array]`. (3) A positive size gives the chunking above |
| AppUtils.StringToBoolean | apps/magicdex-app/utils/index.ts:33-45 | `true` exactly for a string that trims and lower-cases to "true", `false` exactly for "false"; anything else, or a non-string, throws |
| AppUtils.StringToBooleanAcceptsPaddedWord | apps/magicdex-app/utils/index.ts:36-42 | Whitespace around any capitalisation of "true" or "false" is accepted |
| AppUtils.StringToBooleanRoundTrip | apps/magicdex-app/utils/index.ts:38-42 | The strings "true" and "false" read back as their boolean |
| CardFilters.IfArrayEmpty | apps/magicdex-app/components/CardsTable/filtersDefinitions.ts:6-8 | A non-empty array is kept; a missing or empty one is replaced by the fallback |
| CardFilters.ParseInt | apps/magicdex-app/components/CardsTable/filtersDefinitions.ts:18-23 | `Number.parseInt` gives a number only when the text contains a digit |
| CardFilters.ParseIntDecimal | apps/magicdex-app/components/CardsTable/filtersDefinitions.ts:18-23 | A decimal number followed by text that does not continue it parses to that number |
| CardFilters.EmptyFilterPassesAll | apps/magicdex-app/components/CardsTable/filtersDefinitions.ts:11-23 | Every predicate passes every row when its filter value is missing or empty |
| CardFilters.ColorlessRow | apps/magicdex-app/components/CardsTable/filtersDefinitions.ts:6-16 | A row without colours reads as ['∅']: it includes '∅' and excludes every other colour |
| CardFilters.ExcludesNegatesIncludes | apps/magicdex-app/components/CardsTable/filtersDefinitions.ts:13-16 | For a non-empty filter, "excludes any" is "not includes any" and "excludes all" is "not includes all" |
| CardFilters.IncludesAllImpliesAny | apps/magicdex-app/components/CardsTable/filtersDefinitions.ts:13-14 | For a non-empty filter, including all colours implies including any |
| CardFilters.SetNameMultiIsMembership | apps/magicdex-app/components/CardsTable/filtersDefinitions.ts:12 | For a non-empty list, the row passes exactly when its set name is in the list |
| CardFilters.WeakIncludesIgnoresCase | apps/magicdex-app/components/CardsTable/filtersDefinitions.ts:17 | The cell's case does not matter, and a cell always matches its own lower-case form |
| CardFilters.CmcFilterOnLeft | apps/magicdex-app/components/CardsTable/filtersDefinitions.ts:20-23 | The parsed filter is the left operand: "greater than n" passes when n > cmc, "less or equal" when n <= cmc |
| CardFilters.CmcFilterRelations | apps/magicdex-app/components/CardsTable/filtersDefinitions.ts:18-23 | (1) "Not equals" negates "equals". (2) The non-strict comparisons are the strict ones or equality. (3) A filter without digits (NaN) passes only "not equals" |
| ImportBulk.ParseAmount | apps/magicdex-app/components/ImportComponents/ImportBulk/index.tsx:62-66 | The amount is at least 1: a missing amount gives 1, 0 is raised to 1, any other number is kept |
| ImportBulk.ParseAmountOfDecimal | apps/magicdex-app/components/ImportComponents/ImportBulk/index.tsx:62-66 | A written amount reads back as itself, whatever its leading zeros; 0 reads as 1 |
| ImportBulk.FoilTagIsEitherCase | apps/magicdex-app/components/ImportComponents/ImportBulk/index.tsx:60 | A row has the foil tag exactly when it contains "[F]" or "[f]" |
| ImportBulk.FoilTagIgnoresCase | apps/magicdex-app/components/ImportComponents/ImportBulk/index.tsx:60 | A row has the foil tag exactly when its lower-case form contains "[f]" |
| ImportBulk.ParseRow | apps/magicdex-app/components/ImportComponents/ImportBulk/index.tsx:55-72 | The row keeps its original text, its amount is at least 1, and it is foil exactly when it contains "[F]" in either case |
| ImportBulk.NonEmpty | apps/magicdex-app/components/ImportComponents/ImportBulk/index.tsx:86 | `filter(Boolean)` keeps only non-empty lines, all from the input; nothing is kept exactly when every line is empty |
| ImportBulk.Rows | apps/magicdex-app/components/ImportComponents/ImportBulk/index.tsx:84-87 | The rows contain no line break; there are none exactly when the text is nothing but line breaks |
| ImportBulk.NoTextIffNoLines | apps/magicdex-app/components/ImportComponents/ImportBulk/index.tsx:84-86 | Every split piece is empty exactly when the text is only line breaks |
| ImportBulk.BlankLineGivesEmptyRow | apps/magicdex-app/components/ImportComponents/ImportBulk/index.tsx:86-87 | A line of spaces survives the filter and trims to an empty row |
| ImportBulk.FindKey | apps/magicdex-app/components/ImportComponents/ImportBulk/index.tsx:89-99 | Finds the first row with the key, or reports that none has it |
| ImportBulk.Merge | apps/magicdex-app/components/ImportComponents/ImportBulk/index.tsx:88-101 | The merged list is empty exactly when the input is |
| ImportBulk.MergeReference | apps/magicdex-app/components/ImportComponents/ImportBulk/index.tsx:88-101 | Independent definition: one row per key at the key's first occurrence, with the amounts of all rows with that key summed |
| ImportBulk.MergeIsReference | apps/magicdex-app/components/ImportComponents/ImportBulk/index.tsx:88-101 | The `reduce` merge equals that independent definition |
| ImportBulk.MergeKeepsTotal | apps/magicdex-app/components/ImportComponents/ImportBulk/index.tsx:96-99 | Merging preserves the total amount |
| ImportBulk.MergedAt | apps/magicdex-app/components/ImportComponents/ImportBulk/index.tsx:88-101 | The j-th merged row is the j-th first occurrence, with its key's summed amount |
| ImportBulk.MergeKeysDistinct | apps/magicdex-app/components/ImportComponents/ImportBulk/index.tsx:89-99 | No two merged rows share a key |
| ImportBulk.MergeCoversInput | apps/magicdex-app/components/ImportComponents/ImportBulk/index.tsx:89-99 | Every input row's key appears among the merged rows |
| ImportBulk.MergeKeepsFirstOccurrences | apps/magicdex-app/components/ImportComponents/ImportBulk/index.tsx:96-99 | Each merged row is its key's first row (same text and fields) with the summed amount, and the merged rows keep the order of first occurrence |
| ImportBulk.DuplicateLinesMerge | apps/magicdex-app/components/ImportComponents/ImportBulk/index.tsx:96-97 | Two rows with the same key merge into the first, with the amounts added |
| ImportBulk.MergeOneTotal | apps/magicdex-app/components/ImportComponents/ImportBulk/index.tsx:96-99 | One `reduce` step adds exactly the row's amount to the total |
| ImportBulk.Queries | apps/magicdex-app/components/ImportComponents/ImportBulk/index.tsx:84-87 | One parsed query per row, in order |
| ImportBulk.HandleSubmit | apps/magicdex-app/components/ImportComponents/ImportBulk/index.tsx:81-109 | The queries are the merged parsed rows. The mutation fires at once exactly when cards are staged and the text is only line breaks |
| ImportBulk.NormalizeFoil | apps/magicdex-app/components/ImportComponents/ImportBulk/index.tsx:117-123 | The request changes exactly when foil is asked without a foil finish, or non-foil without a non-foil finish |
| ImportBulk.NormalizedFoilIsAvailable | apps/magicdex-app/components/ImportComponents/ImportBulk/index.tsx:117-123 | For a card with any finish, the chosen finish is one it has, and a card with both keeps the request |
| ImportBulk.PartitionReferenceSnoc | apps/magicdex-app/components/ImportComponents/ImportBulk/index.tsx:115-129 | The front-to-back reference, extended by one more answer, appends that answer's staged card or query to the matching side: it agrees with the `forEach` order of `push` |
| ImportBulk.Partition | apps/magicdex-app/components/ImportComponents/ImportBulk/index.tsx:115-129 | (1) Every answer goes to exactly one side. (2) The failed side has one query per missing answer. (3) Nothing fails exactly when every card was found. (4) Failed entries are answered queries. (5) The result equals the front-to-back reference: the staged card of each found answer and the query of each missing one, both in answer order |
| ImportBulk.PartitionStagesFoundCards | apps/magicdex-app/components/ImportComponents/ImportBulk/index.tsx:115-129 | Every staged card is a found card, with its query's amount and the normalised foil flag |
| ImportBulk.HandleCardMutate | apps/magicdex-app/components/ImportComponents/ImportBulk/index.tsx:111-165 | (1) Throws exactly when there are more answers than queries. (2) Otherwise it mutates exactly when nothing failed. (3) The k-th payload carries the id, amount and foil flag of the k-th card of the found cards (in answer order) followed by the staging area, as NM, not altered, misprinted or signed, with no tags. (4) On a retry, the staging area becomes the old one followed by the found cards, and the text is the failed rows' original texts joined by line breaks |
| ImportBulk.RetryTextSplitsIntoFailedLines | apps/magicdex-app/components/ImportComponents/ImportBulk/index.tsx:162-164 | The text put back splits into exactly the failed rows' original texts |
| ImportBulk.SubmittedLinesAreSingleLines | apps/magicdex-app/components/ImportComponents/ImportBulk/index.tsx:84-87 | Every submitted query's original text is free of line breaks, so the retry round trip applies |
| CardImage.ParseCardTransformType | apps/magicdex-app/components/CardImage/index.tsx:43-68 | (1) The four double-faced layouts map to DFC. (2) split and planar map anticlockwise exactly when some keyword is "aftermath" in any case, clockwise otherwise, and throw when keywords are missing. (3) flip maps to Rotate180. (4) Everything else, including no layout, maps to None |
| CardImage.KeywordsOnlyMatterSideways | apps/magicdex-app/components/CardImage/index.tsx:47-66 | Outside split and planar layouts the keywords never matter and nothing throws |
| CardImage.AftermathAnyCase | apps/magicdex-app/components/CardImage/index.tsx:54-59 | An "aftermath" keyword in any case, anywhere in the list, turns the card anticlockwise |
| CardImage.PreferredUrl | apps/magicdex-app/components/CardImage/index.tsx:141-147 | The address is one of the card's links, or '/cardback.png' when none is present |
| CardImage.PreferredUrlIsFirstPresent | apps/magicdex-app/components/CardImage/index.tsx:141-147 | The address is the first present link of png, large, normal, small |
| CardImage.GetCardImageUrl | apps/magicdex-app/components/CardImage/index.tsx:134-148 | Throws exactly when a double-faced card's face list lacks the face shown. Otherwise the address is the card back or a link of the card or of one of its faces |
| CardImage.TurningOverShowsTheBack | apps/magicdex-app/components/CardImage/index.tsx:138-139 | A two-faced DFC card shows face 0's links, and face 1's once transformed |
| CardImage.FacesIgnoredUnlessDoubleFaced | apps/magicdex-app/components/CardImage/index.tsx:138-139 | For any other transform, neither the faces nor the transformed flag matter |
| CardImage.TurningOverSingleFaceFails | apps/magicdex-app/components/CardImage/index.tsx:138-139 | A DFC card with one face shows it, and throws when transformed |
| AuthErrors.AuthErrorMapper | apps/magicdex-app/components/AuthErrorText/index.tsx:17-48 | Each of the seven codes maps to its own message. CredentialsSignin, SessionRequired and Default map to 'Error signing in'. Any other string comes back unchanged; the mapper is total |
| AuthErrors.MessagesAreNotCodes | apps/magicdex-app/components/AuthErrorText/index.tsx:19-43 | No message is itself a known code |
| AuthErrors.UnknownCodesUnchanged | apps/magicdex-app/components/AuthErrorText/index.tsx:45-46 | A string comes back unchanged exactly when it is not one of the ten known codes |
| AuthErrors.MapperIdempotent | apps/magicdex-app/components/AuthErrorText/index.tsx:17-48 | Mapping a mapped text again changes nothing |
| AuthErrors.KnownCodesDistinguished | apps/magicdex-app/components/AuthErrorText/index.tsx:19-43 | Two known codes share a text only when both are sign-in codes |
| AuthErrors.CodeMessageUnique | apps/magicdex-app/components/AuthErrorText/index.tsx:19-38 | Only its own code maps to each of the seven messages |
| AuthErrors.MessagesDistinct | apps/magicdex-app/components/AuthErrorText/index.tsx:19-38 | The seven messages are pairwise different |
| Bits.BitLength | apps/python-workspace/webcam_import_app/bl/hamming_trie.py:113 | `int.bit_length`: the least r with v < 2^r, zero exactly for 0 |
| Bits.BitLengthLeast | apps/python-workspace/webcam_import_app/bl/hamming_trie.py:113 | A value below 2^n has at most n bits |
| Bits.Padded | apps/python-workspace/webcam_import_app/bl/hamming_trie.py:115-116 | `bin(v)[2:].zfill(w)` has max(w, max(1, bit length)) digits |
| Bits.PaddedLength | apps/python-workspace/webcam_import_app/bl/hamming_trie.py:115-116 | A value that fits the width pads to exactly the width |
| Bits.FromBitsBound | apps/python-workspace/webcam_import_app/bl/phash.py:55 | n binary digits spell a number below 2^n |
| Bits.FromLowBits | apps/python-workspace/webcam_import_app/bl/hamming_trie.py:115-116 | Reading back the n low digits of a number below 2^n gives the number |
| Bits.LowBitsFromBits | apps/python-workspace/webcam_import_app/bl/phash.py:55 | Writing the number a bit string spells, at its length, gives the string back |
| Bits.PaddedRoundTrip | apps/python-workspace/webcam_import_app/bl/hamming_trie.py:115-116 | `int(bin(v)[2:].zfill(w), 2) == v` |
| Bits.MismatchesConcat | apps/python-workspace/webcam_import_app/bl/hamming_trie.py:150-158 | The mismatches of two concatenations are the sum of the parts' mismatches |
| Bits.PopCountZero | apps/python-workspace/webcam_import_app/bl/cv2_layer.py:212 | A number has no set bit exactly when it is 0 |
| Bits.XorZero | apps/python-workspace/webcam_import_app/bl/cv2_layer.py:212 | `a ^ b` is 0 exactly when `a == b` |
| Bits.XorSymmetric | apps/python-workspace/webcam_import_app/bl/cv2_layer.py:212 | `a ^ b == b ^ a` |
| Bits.XorInvolution | apps/python-workspace/webcam_import_app/bl/phash.py:61-64 | `(a ^ k) ^ k == a` |
| Bits.LowBitsDistance | apps/python-workspace/webcam_import_app/bl/hamming_trie.py:150-151 | The mismatches between the n low digits of two numbers below 2^n are the set bits of their xor |
| Bits.PaddedDistance | apps/python-workspace/webcam_import_app/bl/hamming_trie.py:150-151 | Two values padded to a common width differ in as many digits as their xor has set bits |
| Bits.ClearLowestSetBit | apps/magicdex-app/public/js/utils.js:14 | For v > 0, `v & (v - 1)` is smaller than v and has exactly one set bit fewer |
| Bits.AndSelf | apps/magicdex-app/public/js/utils.js:14 | `a & a == a` |
| Bits.BitInts | apps/python-workspace/webcam_import_app/bl/cv2_layer.py:195 | `astype('uint8')` of a boolean array: 1 for true, 0 for false, position by position |
| Ranking.InsertByDistance | apps/python-workspace/webcam_import_app/bl/hamming_trie.py:164 | Inserting into a sorted list keeps it sorted and adds exactly the new element |
| Ranking.SortByDistance | apps/python-workspace/webcam_import_app/bl/hamming_trie.py:164 | The sort by distance is sorted and a permutation of its input |
| Ranking.InsertItems | apps/python-workspace/webcam_import_app/bl/hamming_trie.py:164 | Insertion adds exactly the new item to the items |
| Ranking.SortItems | apps/python-workspace/webcam_import_app/bl/hamming_trie.py:164 | Sorting keeps the multiset of items |
| Ranking.InsertStable | apps/python-workspace/webcam_import_app/bl/hamming_trie.py:164 | The inserted element goes in front of every element at its distance; at each other distance the order is unchanged |
| Ranking.SortStable | apps/python-workspace/webcam_import_app/bl/hamming_trie.py:164 | `sorted` is stable: at each distance, the results keep their input order |
| Ranking.AtDistancePrefix | apps/python-workspace/webcam_import_app/bl/phash.py:103 | Cutting a list after `k` elements keeps, at each distance, a prefix of that distance's elements |
| Ranking.PySliceTo | apps/python-workspace/webcam_import_app/bl/phash.py:134 | `s[:n]` is a prefix: n elements (capped) for n >= 0, and all but the last -n for negative n |
| Ranking.PrefixSorted | apps/python-workspace/webcam_import_app/bl/phash.py:134 | A prefix of a sorted list is sorted |
| JsText.LeadingSpace | apps/magicdex-app/utils/index.ts:36 | The length of the longest whitespace prefix |
| JsText.TrailingSpace | apps/magicdex-app/utils/index.ts:36 | The length of the longest whitespace suffix |
| JsText.Trim | apps/magicdex-app/utils/index.ts:36 | `trim` removes exactly the leading and trailing whitespace; the result neither starts nor ends with whitespace |
| JsText.TrimClean | apps/magicdex-app/utils/index.ts:36 | A string with no outer whitespace is its own trim |
| JsText.TrimPadded | apps/magicdex-app/utils/index.ts:36 | Trimming whitespace padding around a clean string gives the string back |
| JsText.Lower | apps/magicdex-app/utils/index.ts:36 | `toLowerCase` keeps the length and lowers each character |
| JsText.LowerIdempotent | apps/magicdex-app/utils/index.ts:36 | Lowering twice is lowering once |
| JsText.LowerOfLowercase | apps/magicdex-app/utils/index.ts:36 | A string without capitals is its own lower case |
| JsText.IndexOf | apps/magicdex-app/components/ImportComponents/ImportBulk/index.tsx:85 | The first position of the separator, or the length when there is none |
| JsText.Split | apps/magicdex-app/components/ImportComponents/ImportBulk/index.tsx:85 | `split` gives at least one piece, and no piece contains the separator |
| JsText.JoinSplit | apps/magicdex-app/components/ImportComponents/ImportBulk/index.tsx:85 | Joining the pieces of a split gives the string back |
| JsText.SplitJoin | apps/magicdex-app/components/ImportComponents/ImportBulk/index.tsx:163 | Splitting a join of separator-free pieces gives the pieces back |
| JsText.SplitAfterSeparator | apps/magicdex-app/components/ImportComponents/ImportBulk/index.tsx:85 | A separator-free head followed by the separator splits off as the first piece |
| Numerals.DecimalRoundTrip | apps/magicdex-app/components/ImportComponents/ImportBulk/index.tsx:62 | The digits of a number read back as the number |
| Numerals.LeadingZeros | apps/magicdex-app/components/ImportComponents/ImportBulk/index.tsx:62 | Leading zeros do not change the value |
| Numerals.NatDecimal | apps/python-workspace/webcam_import_app/bl/phash.py:55 | The decimal text of a number is all digits, without a leading zero unless it is "0" |

## Left out

- Image processing in `phash` is outside the model: the colour conversion, resize, DCT and median threshold. The thresholded bits are a parameter. So are the camera, OpenCV contour detection and the rest of `cv2_layer`.
- Loading the catalog CSV, pandas and danfo data frames, `tqdm`, the `lru_cache` on `find` and the singleton metaclass are left out. The catalog is an in-memory sequence of cards. Memoisation does not change a result.
- `afind` returns `find`'s own result. The coroutine wrapper is left out, and `ScanFind` and `TrieFind` stand for it.
- The clock is a parameter. `TTLCache` reads `time()` once per entry; the model reads one `now` per call.
- `CacheEntry` equality by value is modelled by keying each key's entries by value. Hash-set iteration order is not modelled: reads return sets.
- There is no cache-first orchestrator in the code, and none is modelled.
- No trie/brute-force equivalence is stated. It does not hold for this code: splits drop items, a fully present path stores nothing, and the width can grow.
- `TrieNode.parent` links and the per-node `item_bit_length` property are replaced by one width stored on the trie. Every node reads the root's width, so they agree.
- `TrieNode.__repr__`, `__getitem__` outside `find` and `insert`, and `BinaryHammingTrie.__repr__` are display helpers and are left out.
- Hash values are non-negative everywhere: every integer hash is a `nat`, as perceptual hashes always are. Negative ints are not modelled for these members:
  - `Cv2Layer.HammingDistance` and `Cv2Layer.HammingDistanceAsWritten`: `bin` of a negative int carries a sign.
  - `HammingTrie.Insert`: with a negative value, `insert` first widens `item_bit_length` and then raises `ValueError` on `int('b')` (`bl/hamming_trie.py:113-116`). A failed insert therefore still changes the trie.
  - `HammingTrie.Find`: a negative query runs without an error, because the digit string starts with `b` and simply mismatches.
  - `Phash.ScanFind` and `Phash.TrieFind`.
  - `JsUtils.HammingDistanceBigInt`: when the xor is negative, `val &= val - 1n` never reaches `0n` (`public/js/utils.js:12-15`), so the source loops forever. The model's termination argument relies on the xor being non-negative.
- `Cv2Layer.HammingDistanceAsWritten`: the mixed int/array branches assume numpy 1.25 or later, where `!=` between a number array and a string array is true everywhere and a shape mismatch raises. Older numpy returned a single `True` with a warning, which is not modelled.
- `Cv2Layer.OrderPoints`: the `int32` result array is not modelled; coordinates are assumed to fit.
- `PhashValue`: the `timeit` decorator is left out.
- The `CardPhashItem` fields other than the hash are plain strings. pydantic validation beyond `validate_phash` is left out.
- `Phash.ValidatePhash`: `int('', 2)` and other malformed digit strings fail with one error kind. Python's `_` separators and surrounding whitespace in `int()` are not modelled.
- `JsUtils.MatchPhash`: an empty table is excluded by a precondition. What danfo's `argMin` does on an empty column is library behaviour outside this model.
- `JsUtils.HammingDistanceString`: the operands are BigInts, as `match_phash` passes them. A Number operand would use 32-bit `^`, and mixing the two throws; neither is modelled for this function.
- The regular expressions of `parseTextRowToCardQueryParams` are a parameter that returns their captures. The foil test `/\[F\]/i` is modelled directly.
- `ImportBulk.ParseAmount`: amounts above 2^53 lose precision as JS numbers; the model keeps them exact.
- `getCardFinishes` is not part of this model: each found card carries its finishes. Line 118 of `ImportBulk/index.tsx` calls it before the `if (card)` test, on missing answers too. For a missing answer, the model takes it that `getCardFinishes(undefined)` returns finishes without throwing, and that the flag it yields is unused. If it threw, `handleCardMutate` would throw on any missing card, and the retry path (`ImportBulk.HandleCardMutate`'s `Retry`, `ImportBulk.RetryTextSplitsIntoFailedLines`) would not exist.
- React state, effects, notifications and the network mutation are left out. `HandleSubmit` and `HandleCardMutate` return what they would set or send.
- `JsText.Lower`: only ASCII letters are lowered. `toLowerCase` also lowers non-ASCII letters.
- `AppUtils.SplitArrayToChunks`: the chunk size is an integer. A fractional size, which JavaScript would accept, is not modelled.
- `AppUtils.StringToBoolean`: a non-string argument is represented only by its type name.
- `CardFilters.CmcFilter`: the mana value is an exact real; JS floating point is not modelled.
- `Phash.DefaultTolerance`: `B * 0.375` is computed exactly. 0.375 is a binary fraction, so this matches floating point for every realistic `B`.
- `Phash.ScanFind` and `Phash.NearestWithin`: tie order follows `keep='first'`, as `Phash.NearestKeepsTableOrder` states. When `n` is smaller than the catalog, pandas keeps equal distances in catalog order with a stable sort. When `n` is at least the catalog size, pandas instead calls `sort_values`, whose default quicksort is not stable. Equal distances may then come back in another order. The model keeps catalog order in this case as well.
- `HammingTrieProperties.FindAllAtFullTolerance`: requires the query to fit the width. A longer query raises `IndexError` as soon as a leaf exists, as `HammingTrie.Find` states.
- `Bits.PaddedLength`: stated only for values that fit the width, the only case the trie uses.

## Findings

| source | as written | input that shows it | evidently intended | confidence | as-written member | corrected member |
|---|---|---|---|---|---|---|
| apps/python-workspace/webcam_import_app/bl/phash.py:61-69 | `__xor__` xors `hash(self)`. `__hash__` returns the phash, and CPython replaces a returned int of 2^63 or more by its hash modulo 2^61 - 1 | a card with phash 2^63: `item ^ 0` gives 4 | `self.phash ^ other`, giving 2^63 | not executed | Phash.CardXor, Phash.CardXorReducesWideHashes | Phash.CardXorIntended, Phash.CardXorIntendedProperties |
| apps/python-workspace/webcam_import_app/bl/cv2_layer.py:217-223 | The int is turned into an array of '0'/'1' strings, which is compared with the number array, so every position differs. The int-first branch also compares the int `a` where `b` was meant | `hamming_distance(np.array([0, 1]), 1)` gives 2 | compare digit values, giving 0 | not executed (assumes numpy 1.25 or later) | Cv2Layer.HammingDistanceAsWritten, Cv2Layer.MixedDistanceAsWritten | Cv2Layer.HammingDistance, Cv2Layer.MixedDistanceIntended |
