/** The bulk import form: each non-empty line of the text area becomes a card
    query (an amount of at least 1 and a foil flag read from the line), lines
    asking for the same printing are merged with their amounts summed, and the
    answers are split into cards to add and lines to retry. */
module ImportBulk {
  import opened Wrappers
  import opened JsText
  import opened Numerals

  // ---------------------------------------------------------------------------
  // One line

  /** The fields the line's regular expressions capture; `amount` is the digit
      run in front of the name (absent when the name pattern does not match). */
  datatype Captures = Captures(name: Option<string>, setCode: Option<string>, collectorNumber: Option<string>,
                               lang: Option<string>, amount: Option<string>)

  /** A card query built from one line. */
  datatype CardQueryParam = CardQueryParam(originalText: string, name: Option<string>, amount: nat,
                                           setCode: Option<string>, collectorNumber: Option<string>,
                                           lang: Option<string>, foil: bool)

  /** `Math.max(1, isNaN(amount) ? 1 : amount)` where `amount` is `Number` of the
      captured digits: a missing capture is NaN and the empty capture is 0. The
      capture only ever holds decimal digits. */
  function ParseAmount(captured: Option<string>): (r: nat)
    ensures r >= 1
    ensures captured.None? ==> r == 1
    ensures captured.Some? && AllDigits(captured.value) ==>
              (DigitsValue(captured.value) >= 1 ==> r == DigitsValue(captured.value))
              && (DigitsValue(captured.value) == 0 ==> r == 1)
  {
    if captured.Some? && AllDigits(captured.value) && DigitsValue(captured.value) >= 1
    then DigitsValue(captured.value)
    else 1
  }

  /** A written amount reads back as itself, leading zeros and all; zero reads as 1. */
  lemma ParseAmountOfDecimal(n: nat, zeros: nat)
    ensures ParseAmount(Some(seq(zeros, _ => '0') + NatDecimal(n))) == if n == 0 then 1 else n
  {
    LeadingZeros(zeros, NatDecimal(n));
    DecimalRoundTrip(n);
  }

  /** "[F]" or "[f]" starts at position `i`. */
  predicate FoilTagAt(text: string, i: int) {
    0 <= i && i + 3 <= |text| && text[i] == '[' && (text[i + 1] == 'F' || text[i + 1] == 'f') && text[i + 2] == ']'
  }

  /** `/\[F\]/i`: the line contains "[F]" in either case. */
  predicate HasFoilTag(text: string) {
    exists i :: 0 <= i < |text| && FoilTagAt(text, i)
  }

  lemma TagAt(text: string, i: nat, tag: string)
    requires i + 3 <= |text| && |tag| == 3
    ensures StartsWith(text[i..], tag) <==> text[i] == tag[0] && text[i + 1] == tag[1] && text[i + 2] == tag[2]
  {
    assert text[i..][..3] == [text[i], text[i + 1], text[i + 2]];
  }

  /** The three characters at `i` spell `tag`. */
  predicate TagSliceIs(text: string, i: int, tag: string) {
    0 <= i && i + 3 <= |text| && text[i..i + 3] == tag
  }

  lemma ContainsTag(text: string, tag: string)
    requires |tag| == 3
    ensures Contains(text, tag) <==> exists i :: 0 <= i < |text| && TagSliceIs(text, i, tag)
  {
    if Contains(text, tag) {
      var i :| 0 <= i <= |text| && StartsWith(text[i..], tag);
      assert text[i..i + 3] == text[i..][..3];
      assert TagSliceIs(text, i, tag);
    }
    if exists i :: 0 <= i < |text| && TagSliceIs(text, i, tag) {
      var i :| 0 <= i < |text| && TagSliceIs(text, i, tag);
      assert text[i..i + 3] == text[i..][..3];
      assert StartsWith(text[i..], tag);
    }
  }

  lemma TagSlice(text: string, i: nat)
    requires i + 3 <= |text|
    ensures FoilTagAt(text, i) <==> text[i..i + 3] == "[F]" || text[i..i + 3] == "[f]"
  {
    assert text[i..i + 3] == [text[i], text[i + 1], text[i + 2]];
  }

  /** The foil tag is a "[F]" or a "[f]" in the line. */
  lemma FoilTagIsEitherCase(text: string)
    ensures HasFoilTag(text) <==> Contains(text, "[F]") || Contains(text, "[f]")
  {
    ContainsTag(text, "[F]");
    ContainsTag(text, "[f]");
    if HasFoilTag(text) {
      var i :| 0 <= i < |text| && FoilTagAt(text, i);
      TagSlice(text, i);
      assert TagSliceIs(text, i, "[F]") || TagSliceIs(text, i, "[f]");
    }
    if Contains(text, "[F]") || Contains(text, "[f]") {
      var i :| 0 <= i < |text| && (TagSliceIs(text, i, "[F]") || TagSliceIs(text, i, "[f]"));
      TagSlice(text, i);
      assert FoilTagAt(text, i);
    }
  }

  lemma LowerTagAt(text: string, i: nat)
    requires i + 3 <= |text|
    ensures FoilTagAt(text, i) <==> Lower(text)[i..i + 3] == "[f]"
  {
    var t := Lower(text)[i..i + 3];
    assert t[0] == LowerChar(text[i]);
    assert t[1] == LowerChar(text[i + 1]);
    assert t[2] == LowerChar(text[i + 2]);
    LowerTriple(text[i], text[i + 1], text[i + 2], t);
  }

  /** Three characters spell the foil tag exactly when their lower-case forms spell "[f]". */
  lemma LowerTriple(a: char, b: char, c: char, t: string)
    requires |t| == 3 && t[0] == LowerChar(a) && t[1] == LowerChar(b) && t[2] == LowerChar(c)
    ensures (a == '[' && (b == 'F' || b == 'f') && c == ']') <==> t == "[f]"
  {
    LowerCharCases(a);
    LowerCharCases(b);
    LowerCharCases(c);
    if t == "[f]" {
      assert t[0] == '[' && t[1] == 'f' && t[2] == ']';
    }
  }

  /** Lower-casing keeps the brackets and sends only "f" and "F" to "f". */
  lemma LowerCharCases(c: char)
    ensures LowerChar(c) == '[' <==> c == '['
    ensures LowerChar(c) == ']' <==> c == ']'
    ensures LowerChar(c) == 'f' <==> c == 'f' || c == 'F'
  {
  }

  /** The foil tag is a "[f]" in the lower-cased line. */
  lemma FoilTagIgnoresCase(text: string)
    ensures HasFoilTag(text) <==> Contains(Lower(text), "[f]")
  {
    var low := Lower(text);
    ContainsTag(low, "[f]");
    if HasFoilTag(text) {
      var i :| 0 <= i < |text| && FoilTagAt(text, i);
      LowerTagAt(text, i);
      assert TagSliceIs(low, i, "[f]");
    }
    if Contains(low, "[f]") {
      var i :| 0 <= i < |low| && TagSliceIs(low, i, "[f]");
      LowerTagAt(text, i);
      assert 0 <= i < |text| && FoilTagAt(text, i);
    }
  }

  /** `parseTextRowToCardQueryParams(text)`, given what its patterns capture. */
  function ParseRow(text: string, captures: Captures): (r: CardQueryParam)
    ensures r.originalText == text
    ensures r.amount >= 1
    ensures r.foil <==> Contains(Lower(text), "[f]")
  {
    FoilTagIgnoresCase(text);
    CardQueryParam(text, captures.name, ParseAmount(captures.amount), captures.setCode,
                   captures.collectorNumber, captures.lang, HasFoilTag(text))
  }

  // ---------------------------------------------------------------------------
  // Rows of the text area

  /** `.filter(Boolean)`: the non-empty strings, in order. */
  function NonEmpty(lines: seq<string>): (r: seq<string>)
    ensures |r| <= |lines|
    ensures forall k :: 0 <= k < |r| ==> r[k] in lines && |r[k]| > 0
    ensures (forall k :: 0 <= k < |lines| ==> |lines[k]| == 0) <==> |r| == 0
  {
    if |lines| == 0 then []
    else if |lines[0]| == 0 then NonEmpty(lines[1..])
    else [lines[0]] + NonEmpty(lines[1..])
  }

  /** The rows `handleSubmit` parses: the non-empty lines, each trimmed
      afterwards, so a line of blanks gives an empty row. */
  function Rows(text: string): (r: seq<string>)
    ensures forall k :: 0 <= k < |r| ==> '\n' !in r[k]
    ensures |r| == 0 <==> forall c :: c in text ==> c == '\n'
  {
    var lines := NonEmpty(Split(text, '\n'));
    assert forall k :: 0 <= k < |lines| ==> '\n' !in lines[k];
    assert forall k :: 0 <= k < |lines| ==> '\n' !in Trim(lines[k]) by {
      forall k | 0 <= k < |lines|
        ensures '\n' !in Trim(lines[k])
      {
        var a := LeadingSpace(lines[k]);
        assert Trim(lines[k]) == lines[k][a..a + |Trim(lines[k])|];
      }
    }
    NoTextIffNoLines(text);
    seq(|lines|, k requires 0 <= k < |lines| => Trim(lines[k]))
  }

  lemma NoTextIffNoLines(text: string)
    ensures (forall k :: 0 <= k < |Split(text, '\n')| ==> |Split(text, '\n')[k]| == 0)
              <==> (forall c :: c in text ==> c == '\n')
  {
    var parts := Split(text, '\n');
    JoinSplit(text, '\n');
    if forall k :: 0 <= k < |parts| ==> |parts[k]| == 0 {
      JoinOfEmpties(parts);
    } else {
      var k :| 0 <= k < |parts| && |parts[k]| > 0;
      var c := parts[k][0];
      assert c != '\n';
      PieceInJoin(parts, k, 0);
    }
  }

  lemma {:induction false} JoinOfEmpties(parts: seq<string>)
    requires forall k :: 0 <= k < |parts| ==> |parts[k]| == 0
    ensures forall c :: c in Join(parts, '\n') ==> c == '\n'
  {
    if |parts| > 1 {
      JoinOfEmpties(parts[1..]);
      assert parts[0] == [];
      assert Join(parts, '\n') == ['\n'] + Join(parts[1..], '\n');
    }
  }

  lemma {:induction false} PieceInJoin(parts: seq<string>, k: nat, j: nat)
    requires k < |parts| && j < |parts[k]|
    ensures parts[k][j] in Join(parts, '\n')
  {
    if k == 0 {
      if |parts| > 1 {
        assert Join(parts, '\n')[j] == parts[0][j];
      }
    } else {
      PieceInJoin(parts[1..], k - 1, j);
      var tail := Join(parts[1..], '\n');
      assert Join(parts, '\n') == parts[0] + ['\n'] + tail;
      assert parts[k][j] in tail;
    }
  }

  /** A line of blanks survives the empty-line filter and becomes an empty row. */
  lemma BlankLineGivesEmptyRow(blanks: string)
    requires |blanks| > 0 && '\n' !in blanks
    requires forall i :: 0 <= i < |blanks| ==> IsJsWhitespace(blanks[i])
    ensures Rows(blanks) == [""]
  {
    IndexOfAbsent(blanks, '\n');
    assert Split(blanks, '\n') == [blanks];
    assert NonEmpty([blanks]) == [blanks];
    assert LeadingSpace(blanks) == |blanks| by {
      BlanksAreLeadingSpace(blanks);
    }
  }

  lemma {:induction false} BlanksAreLeadingSpace(s: string)
    requires forall i :: 0 <= i < |s| ==> IsJsWhitespace(s[i])
    ensures LeadingSpace(s) == |s|
  {
    if |s| > 0 {
      BlanksAreLeadingSpace(s[1..]);
    }
  }

  // ---------------------------------------------------------------------------
  // Merging rows that ask for the same printing

  /** The `JSON.stringify` key of a query. The object always lists its five
      properties in the same order and drops the absent ones, so two keys are
      equal exactly when the five fields are. */
  datatype MergeKey = MergeKey(name: Option<string>, setCode: Option<string>, collectorNumber: Option<string>,
                               lang: Option<string>, foil: bool)

  function Key(p: CardQueryParam): MergeKey {
    MergeKey(p.name, p.setCode, p.collectorNumber, p.lang, p.foil)
  }

  /** The position of the first query with key `k`, if any. */
  function FindKey(acc: seq<CardQueryParam>, k: MergeKey): (r: Option<nat>)
    ensures r.Some? ==> r.value < |acc| && Key(acc[r.value]) == k
    ensures r.Some? ==> forall i :: 0 <= i < r.value ==> Key(acc[i]) != k
    ensures r.None? ==> forall i :: 0 <= i < |acc| ==> Key(acc[i]) != k
  {
    if |acc| == 0 then None
    else if Key(acc[0]) == k then Some(0)
    else match FindKey(acc[1..], k)
      case None => None
      case Some(i) => Some(i + 1)
  }

  /** `acc` with `extra` added to the amount of query `i`. */
  function AddAmount(acc: seq<CardQueryParam>, i: nat, extra: nat): (r: seq<CardQueryParam>)
    requires i < |acc|
  {
    acc[i := acc[i].(amount := acc[i].amount + extra)]
  }

  /** One step of the `reduce`: add the amount to the query already holding the
      key, or append the query. */
  function MergeOne(acc: seq<CardQueryParam>, p: CardQueryParam): (r: seq<CardQueryParam>)
    ensures |r| > 0
  {
    match FindKey(acc, Key(p))
    case Some(i) => AddAmount(acc, i, p.amount)
    case None => acc + [p]
  }

  /** `Object.values` of the merged record: the `reduce` over the queries. */
  function Merge(ps: seq<CardQueryParam>): (r: seq<CardQueryParam>)
    ensures |r| == 0 <==> |ps| == 0
  {
    if |ps| == 0 then [] else MergeOne(Merge(ps[..|ps| - 1]), ps[|ps| - 1])
  }

  /** The sum of the amounts of the queries with key `k`. */
  function KeyTotal(ps: seq<CardQueryParam>, k: MergeKey): nat {
    if |ps| == 0 then 0
    else KeyTotal(ps[..|ps| - 1], k) + (if Key(ps[|ps| - 1]) == k then ps[|ps| - 1].amount else 0)
  }

  /** The sum of all amounts. */
  function Total(ps: seq<CardQueryParam>): nat {
    if |ps| == 0 then 0 else Total(ps[..|ps| - 1]) + ps[|ps| - 1].amount
  }

  /** The positions where a key occurs for the first time, in increasing order. */
  function Firsts(ps: seq<CardQueryParam>): (r: seq<nat>)
    ensures forall j :: 0 <= j < |r| ==> r[j] < |ps|
    ensures forall j1, j2 :: 0 <= j1 < j2 < |r| ==> r[j1] < r[j2]
  {
    if |ps| == 0 then []
    else
      var q := ps[..|ps| - 1];
      if FindKey(q, Key(ps[|ps| - 1])).Some? then Firsts(q) else Firsts(q) + [|ps| - 1]
  }

  /** The first query with a given key, carrying the key's total amount. */
  function Combine(ps: seq<CardQueryParam>, i: nat): CardQueryParam
    requires i < |ps|
  {
    ps[i].(amount := KeyTotal(ps, Key(ps[i])))
  }

  /** What merging should give: one query per key, at the key's first
      occurrence, with the amounts of that key summed. */
  function MergeReference(ps: seq<CardQueryParam>): (r: seq<CardQueryParam>)
    ensures |r| == |Firsts(ps)|
  {
    var firsts := Firsts(ps);
    seq(|firsts|, j requires 0 <= j < |firsts| => Combine(ps, firsts[j]))
  }

  lemma FindKeyIsFirst(acc: seq<CardQueryParam>, k: MergeKey, i: nat)
    requires i < |acc| && Key(acc[i]) == k
    requires forall i' :: 0 <= i' < i ==> Key(acc[i']) != k
    ensures FindKey(acc, k) == Some(i)
  {
  }

  lemma FindKeySnoc(q: seq<CardQueryParam>, p: CardQueryParam, k: MergeKey)
    ensures FindKey(q + [p], k) == if FindKey(q, k).Some? then FindKey(q, k)
                                   else if Key(p) == k then Some(|q|) else None
  {
    var ps := q + [p];
    match FindKey(q, k)
    case Some(i) =>
      FindKeyIsFirst(ps, k, i);
    case None =>
      if Key(p) == k {
        FindKeyIsFirst(ps, k, |q|);
      }
  }

  /** `Firsts` holds exactly the first occurrences of the keys. */
  lemma {:induction false} FirstsAreFirstOccurrences(ps: seq<CardQueryParam>)
    ensures forall j :: 0 <= j < |Firsts(ps)| ==> FindKey(ps, Key(ps[Firsts(ps)[j]])) == Some(Firsts(ps)[j])
    ensures forall i :: 0 <= i < |ps| ==> FindKey(ps, Key(ps[i])).Some? && FindKey(ps, Key(ps[i])).value in Firsts(ps)
  {
    if |ps| > 0 {
      var q, p := ps[..|ps| - 1], ps[|ps| - 1];
      assert ps == q + [p];
      FirstsAreFirstOccurrences(q);
      var fq := Firsts(q);
      forall j | 0 <= j < |Firsts(ps)|
        ensures FindKey(ps, Key(ps[Firsts(ps)[j]])) == Some(Firsts(ps)[j])
      {
        var i := Firsts(ps)[j];
        FindKeySnoc(q, p, Key(ps[i]));
      }
      forall i | 0 <= i < |ps|
        ensures FindKey(ps, Key(ps[i])).Some? && FindKey(ps, Key(ps[i])).value in Firsts(ps)
      {
        FindKeySnoc(q, p, Key(ps[i]));
        if i < |q| {
          assert ps[i] == q[i];
        }
      }
    }
  }

  /** The keys of the reference merge are pairwise different. */
  lemma ReferenceKeysDistinct(ps: seq<CardQueryParam>, j1: nat, j2: nat)
    requires j1 < j2 < |Firsts(ps)|
    ensures Key(ps[Firsts(ps)[j1]]) != Key(ps[Firsts(ps)[j2]])
  {
    FirstsAreFirstOccurrences(ps);
  }

  lemma {:induction false} KeyTotalAbsent(ps: seq<CardQueryParam>, k: MergeKey)
    requires forall i :: 0 <= i < |ps| ==> Key(ps[i]) != k
    ensures KeyTotal(ps, k) == 0
  {
    if |ps| > 0 {
      KeyTotalAbsent(ps[..|ps| - 1], k);
    }
  }

  lemma MergeSnoc(q: seq<CardQueryParam>, p: CardQueryParam)
    ensures Merge(q + [p]) == MergeOne(Merge(q), p)
  {
    assert (q + [p])[..|q|] == q;
  }

  lemma FirstsSnoc(q: seq<CardQueryParam>, p: CardQueryParam)
    ensures Firsts(q + [p]) == if FindKey(q, Key(p)).Some? then Firsts(q) else Firsts(q) + [|q|]
  {
    assert (q + [p])[..|q|] == q;
  }

  lemma KeyTotalSnoc(q: seq<CardQueryParam>, p: CardQueryParam, k: MergeKey)
    ensures KeyTotal(q + [p], k) == KeyTotal(q, k) + (if Key(p) == k then p.amount else 0)
  {
    assert (q + [p])[..|q|] == q;
  }

  /** The reference entry for an old first occurrence after one more query. */
  lemma ReferenceSnocAt(q: seq<CardQueryParam>, p: CardQueryParam, j: nat)
    requires j < |Firsts(q)| && j < |Firsts(q + [p])| && Firsts(q + [p])[j] == Firsts(q)[j]
    ensures MergeReference(q + [p])[j]
              == MergeReference(q)[j].(amount := MergeReference(q)[j].amount
                                       + (if Key(MergeReference(q)[j]) == Key(p) then p.amount else 0))
  {
    var i := Firsts(q)[j];
    assert (q + [p])[i] == q[i];
    KeyTotalSnoc(q, p, Key(q[i]));
  }

  /** The keys of the reference merge, and where they first occur. */
  lemma ReferenceKeys(ps: seq<CardQueryParam>)
    ensures forall j :: 0 <= j < |Firsts(ps)| ==> Key(MergeReference(ps)[j]) == Key(ps[Firsts(ps)[j]])
  {
  }

  /** A first occurrence in `q` sits in `Firsts(q)`, and no other entry there
      has its key. */
  lemma FirstOccurrenceSlot(q: seq<CardQueryParam>, i0: nat) returns (j0: nat)
    requires i0 < |q| && FindKey(q, Key(q[i0])) == Some(i0)
    ensures j0 < |Firsts(q)| && Firsts(q)[j0] == i0
    ensures forall j :: 0 <= j < |Firsts(q)| && j != j0 ==> Key(q[Firsts(q)[j]]) != Key(q[i0])
  {
    FirstsAreFirstOccurrences(q);
    var fq := Firsts(q);
    j0 :| 0 <= j0 < |fq| && fq[j0] == i0;
    forall j | 0 <= j < |fq| && j != j0
      ensures Key(q[fq[j]]) != Key(q[i0])
    {
      if j < j0 {
        ReferenceKeysDistinct(q, j, j0);
      } else {
        ReferenceKeysDistinct(q, j0, j);
      }
    }
  }

  /** With the key of `p` first at `i0`, the reference merge adds `p`'s amount
      to the entry for `i0`. */
  lemma ReferenceSnocPresent(q: seq<CardQueryParam>, p: CardQueryParam, i0: nat) returns (j0: nat)
    requires FindKey(q, Key(p)) == Some(i0)
    ensures j0 < |MergeReference(q)| && Key(MergeReference(q)[j0]) == Key(p)
    ensures forall j :: 0 <= j < |MergeReference(q)| && j != j0 ==> Key(MergeReference(q)[j]) != Key(p)
    ensures MergeReference(q + [p])
              == AddAmount(MergeReference(q), j0, p.amount)
  {
    var r, fq := MergeReference(q), Firsts(q);
    j0 := FirstOccurrenceSlot(q, i0);
    ReferenceKeys(q);
    FirstsSnoc(q, p);
    var r' := MergeReference(q + [p]);
    forall j | 0 <= j < |fq|
      ensures r'[j] == AddAmount(r, j0, p.amount)[j]
    {
      ReferenceSnocAt(q, p, j);
    }
  }

  /** With the key of `p` new, the reference merge appends `p`. */
  lemma ReferenceSnocAbsent(q: seq<CardQueryParam>, p: CardQueryParam)
    requires FindKey(q, Key(p)).None?
    ensures forall j :: 0 <= j < |MergeReference(q)| ==> Key(MergeReference(q)[j]) != Key(p)
    ensures MergeReference(q + [p]) == MergeReference(q) + [p]
  {
    var r, r' := MergeReference(q), MergeReference(q + [p]);
    ReferenceKeys(q);
    ReferenceSnocKeepsOld(q, p);
    ReferenceSnocNew(q, p);
    assert r' == r + [p];
  }

  /** With the key of `p` new, the old entries of the reference merge stay as they were. */
  lemma ReferenceSnocKeepsOld(q: seq<CardQueryParam>, p: CardQueryParam)
    requires FindKey(q, Key(p)).None?
    ensures |MergeReference(q + [p])| == |MergeReference(q)| + 1
    ensures forall j :: 0 <= j < |MergeReference(q)| ==> MergeReference(q + [p])[j] == MergeReference(q)[j]
  {
    var r, fq := MergeReference(q), Firsts(q);
    ReferenceKeys(q);
    FirstsSnoc(q, p);
    var r' := MergeReference(q + [p]);
    forall j | 0 <= j < |fq|
      ensures r'[j] == r[j]
    {
      ReferenceSnocAt(q, p, j);
    }
  }

  /** With the key of `p` new, the reference merge ends with `p` itself. */
  lemma ReferenceSnocNew(q: seq<CardQueryParam>, p: CardQueryParam)
    requires FindKey(q, Key(p)).None?
    ensures |MergeReference(q + [p])| == |MergeReference(q)| + 1
    ensures MergeReference(q + [p])[|MergeReference(q)|] == p
  {
    FirstsSnoc(q, p);
    KeyTotalAbsent(q, Key(p));
    KeyTotalSnoc(q, p, Key(p));
  }

  /** A query whose key is already present adds its amount to that query. */
  lemma MergeSnocPresent(q: seq<CardQueryParam>, p: CardQueryParam, i0: nat)
    requires Merge(q) == MergeReference(q)
    requires FindKey(q, Key(p)) == Some(i0)
    ensures Merge(q + [p]) == MergeReference(q + [p])
  {
    var j0 := ReferenceSnocFound(q, p, i0);
    MergeSnoc(q, p);
    MergeOneAt(MergeReference(q), p, j0);
  }

  /** The slot of a repeated key in the reference merge is where the merge finds it. */
  lemma ReferenceSnocFound(q: seq<CardQueryParam>, p: CardQueryParam, i0: nat) returns (j0: nat)
    requires FindKey(q, Key(p)) == Some(i0)
    ensures FindKey(MergeReference(q), Key(p)) == Some(j0) && j0 < |MergeReference(q)|
    ensures MergeReference(q + [p])
              == AddAmount(MergeReference(q), j0, p.amount)
  {
    var r := MergeReference(q);
    j0 := ReferenceSnocPresent(q, p, i0);
    FindKeyIsFirst(r, Key(p), j0);
  }

  lemma MergeOneAt(acc: seq<CardQueryParam>, p: CardQueryParam, j: nat)
    requires FindKey(acc, Key(p)) == Some(j)
    ensures MergeOne(acc, p) == AddAmount(acc, j, p.amount)
  {
  }

  /** A query with a new key is appended. */
  lemma MergeSnocAbsent(q: seq<CardQueryParam>, p: CardQueryParam)
    requires Merge(q) == MergeReference(q)
    requires FindKey(q, Key(p)).None?
    ensures Merge(q + [p]) == MergeReference(q + [p])
  {
    ReferenceSnocAbsent(q, p);
    assert FindKey(Merge(q), Key(p)).None?;
    MergeSnoc(q, p);
  }

  /** The `reduce` computes the reference merge. */
  lemma {:induction false} MergeIsReference(ps: seq<CardQueryParam>)
    ensures Merge(ps) == MergeReference(ps)
  {
    if |ps| > 0 {
      var q, p := ps[..|ps| - 1], ps[|ps| - 1];
      assert ps == q + [p];
      MergeIsReference(q);
      match FindKey(q, Key(p))
      case Some(i0) => MergeSnocPresent(q, p, i0);
      case None => MergeSnocAbsent(q, p);
    }
  }

  lemma {:induction false} TotalUpdate(acc: seq<CardQueryParam>, i: nat, extra: nat)
    requires i < |acc|
    ensures Total(AddAmount(acc, i, extra)) == Total(acc) + extra
  {
    var u := AddAmount(acc, i, extra);
    assert u[..|u| - 1] == if i == |acc| - 1 then acc[..|acc| - 1] else AddAmount(acc[..|acc| - 1], i, extra);
    if i < |acc| - 1 {
      TotalUpdate(acc[..|acc| - 1], i, extra);
    }
  }

  /** Merging keeps the total number of cards asked for. */
  lemma {:induction false} MergeKeepsTotal(ps: seq<CardQueryParam>)
    ensures Total(Merge(ps)) == Total(ps)
  {
    if |ps| > 0 {
      var q, p := ps[..|ps| - 1], ps[|ps| - 1];
      MergeKeepsTotal(q);
      assert Merge(ps) == MergeOne(Merge(q), p);
      MergeOneTotal(Merge(q), p);
    }
  }

  /** Merging one query in adds its amount to the total. */
  lemma MergeOneTotal(acc: seq<CardQueryParam>, p: CardQueryParam)
    ensures Total(MergeOne(acc, p)) == Total(acc) + p.amount
  {
    match FindKey(acc, Key(p))
    case Some(i) => TotalUpdate(acc, i, p.amount);
    case None => assert (acc + [p])[..|acc|] == acc;
  }

  /** Query `j` of the merge is the first query with its key. */
  lemma MergedAt(ps: seq<CardQueryParam>, j: nat)
    requires j < |Merge(ps)|
    ensures j < |Firsts(ps)|
    ensures Key(Merge(ps)[j]) == Key(ps[Firsts(ps)[j]])
    ensures FindKey(ps, Key(Merge(ps)[j])) == Some(Firsts(ps)[j])
    ensures Merge(ps)[j] == Combine(ps, Firsts(ps)[j])
  {
    MergeIsReference(ps);
    FirstsAreFirstOccurrences(ps);
  }

  /** After merging no two queries share a key. */
  lemma MergeKeysDistinct(ps: seq<CardQueryParam>)
    ensures forall j1, j2 :: 0 <= j1 < j2 < |Merge(ps)| ==> Key(Merge(ps)[j1]) != Key(Merge(ps)[j2])
  {
    forall j1, j2 | 0 <= j1 < j2 < |Merge(ps)|
      ensures Key(Merge(ps)[j1]) != Key(Merge(ps)[j2])
    {
      MergedAt(ps, j1);
      MergedAt(ps, j2);
      ReferenceKeysDistinct(ps, j1, j2);
    }
  }

  /** Every key of the input is the key of some merged query. */
  lemma MergeCoversInput(ps: seq<CardQueryParam>)
    ensures forall i :: 0 <= i < |ps| ==> exists j :: 0 <= j < |Merge(ps)| && Key(Merge(ps)[j]) == Key(ps[i])
  {
    MergeIsReference(ps);
    FirstsAreFirstOccurrences(ps);
    ReferenceKeys(ps);
    var f := Firsts(ps);
    forall i | 0 <= i < |ps|
      ensures exists j :: 0 <= j < |Merge(ps)| && Key(Merge(ps)[j]) == Key(ps[i])
    {
      var j :| 0 <= j < |f| && f[j] == FindKey(ps, Key(ps[i])).value;
      assert Key(Merge(ps)[j]) == Key(ps[i]);
    }
  }

  /** Each merged query is the first query with its key, carrying the key's
      total amount, and the merged queries keep the order of first occurrence. */
  lemma MergeKeepsFirstOccurrences(ps: seq<CardQueryParam>)
    ensures forall j :: 0 <= j < |Merge(ps)| ==>
              FindKey(ps, Key(Merge(ps)[j])).Some?
              && Merge(ps)[j] == Combine(ps, FindKey(ps, Key(Merge(ps)[j])).value)
    ensures forall j1, j2 :: 0 <= j1 < j2 < |Merge(ps)| ==>
              FindKey(ps, Key(Merge(ps)[j1])).value < FindKey(ps, Key(Merge(ps)[j2])).value
  {
    forall j | 0 <= j < |Merge(ps)|
      ensures FindKey(ps, Key(Merge(ps)[j])).Some?
      ensures Merge(ps)[j] == Combine(ps, FindKey(ps, Key(Merge(ps)[j])).value)
    {
      MergedAt(ps, j);
    }
    forall j1, j2 | 0 <= j1 < j2 < |Merge(ps)|
      ensures FindKey(ps, Key(Merge(ps)[j1])).value < FindKey(ps, Key(Merge(ps)[j2])).value
    {
      MergedAt(ps, j1);
      MergedAt(ps, j2);
    }
  }

  /** Two lines asking for the same printing become one query with both amounts. */
  lemma DuplicateLinesMerge(a: CardQueryParam, b: CardQueryParam)
    requires Key(a) == Key(b)
    ensures Merge([a, b]) == [a.(amount := a.amount + b.amount)]
  {
    assert [a, b][..1] == [a];
    assert [a][..0] == [];
  }

  // ---------------------------------------------------------------------------
  // handleSubmit

  datatype Submitted = Submitted(queries: seq<CardQueryParam>, mutateNow: bool)

  /** The queries built from the rows of `text`, before merging. */
  function Queries(text: string, capture: string -> Captures): (r: seq<CardQueryParam>)
    ensures |r| == |Rows(text)|
    ensures forall k :: 0 <= k < |r| ==> r[k] == ParseRow(Rows(text)[k], capture(Rows(text)[k]))
  {
    var rows := Rows(text);
    seq(|rows|, k requires 0 <= k < |rows| => ParseRow(rows[k], capture(rows[k])))
  }

  /** `handleSubmit()`: the merged queries, and whether the staged cards are
      sent at once because no query is left. */
  function HandleSubmit(text: string, capture: string -> Captures, stagedCount: nat): (r: Submitted)
    ensures r.queries == Merge(Queries(text, capture))
    ensures r.mutateNow <==> stagedCount > 0 && forall c :: c in text ==> c == '\n'
  {
    var merged := Merge(Queries(text, capture));
    Submitted(merged, stagedCount > 0 && |merged| == 0)
  }

  // ---------------------------------------------------------------------------
  // handleCardMutate

  /** The finishes a card is printed in. */
  datatype Finishes = Finishes(foil: bool, nonfoil: bool)

  /** A card the bulk query found. */
  datatype FoundCard = FoundCard(id: string, finishes: Finishes)

  /** A card waiting in the staging area. */
  datatype Staged = Staged(id: string, amount: nat, foil: bool)

  /** The body of one card of the collection mutation. */
  datatype UserCardPayload = UserCardPayload(scryfallId: string, amount: nat, foil: bool, condition: string,
                                             altered: bool, misprint: bool, signed: bool, tags: seq<string>)

  /** Whether the card is added as foil: a foil request for a card without a foil
      finish becomes non-foil, and a non-foil request for a card without a
      non-foil finish becomes foil. */
  function NormalizeFoil(requested: bool, finishes: Finishes): (r: bool)
    ensures r != requested <==> (requested && !finishes.foil) || (!requested && !finishes.nonfoil)
  {
    if !finishes.foil && requested then false
    else if !finishes.nonfoil && !requested then true
    else requested
  }

  /** When the card has any finish at all, the finish chosen is one it has. */
  lemma NormalizedFoilIsAvailable(requested: bool, finishes: Finishes)
    requires finishes.foil || finishes.nonfoil
    ensures NormalizeFoil(requested, finishes) ==> finishes.foil
    ensures !NormalizeFoil(requested, finishes) ==> finishes.nonfoil
    ensures finishes.foil && finishes.nonfoil ==> NormalizeFoil(requested, finishes) == requested
  {
  }

  /** What is staged for a found card: its id, its query's amount and the
      normalised foil flag. */
  function StageOf(query: CardQueryParam, card: FoundCard): Staged {
    Staged(card.id, query.amount, NormalizeFoil(query.foil, card.finishes))
  }

  /** Answer `i` is a found card and `s` is what is staged for it. */
  predicate StagedFrom(queries: seq<CardQueryParam>, found: seq<Option<FoundCard>>, i: nat, s: Staged)
    requires i < |found| <= |queries|
  {
    found[i].Some? && s == StageOf(queries[i], found[i].value)
  }

  /** Reference definition of the two lists, read front to back: the staged
      card of every found answer and the query of every missing one, each in
      answer order. */
  function PartitionReference(queries: seq<CardQueryParam>, found: seq<Option<FoundCard>>)
    : (seq<Staged>, seq<CardQueryParam>)
    requires |found| <= |queries|
  {
    if |found| == 0 then ([], [])
    else
      var rest := PartitionReference(queries[1..], found[1..]);
      match found[0]
      case Some(card) => ([StageOf(queries[0], card)] + rest.0, rest.1)
      case None => (rest.0, [queries[0]] + rest.1)
  }

  /** The reference definition, extended by the last answer. */
  lemma {:induction false} PartitionReferenceSnoc(queries: seq<CardQueryParam>, found: seq<Option<FoundCard>>)
    requires 0 < |found| <= |queries|
    ensures var n := |found| - 1;
            var before := PartitionReference(queries[..n], found[..n]);
            found[n].Some? ==> PartitionReference(queries, found) == (before.0 + [StageOf(queries[n], found[n].value)], before.1)
    ensures var n := |found| - 1;
            var before := PartitionReference(queries[..n], found[..n]);
            found[n].None? ==> PartitionReference(queries, found) == (before.0, before.1 + [queries[n]])
  {
    var n := |found| - 1;
    if n == 0 {
      assert PartitionReference(queries[1..], found[1..]) == ([], []);
      assert PartitionReference(queries[..0], found[..0]) == ([], []);
      assert [queries[0]] + [] == [] + [queries[0]];
      if found[0].Some? {
        assert [StageOf(queries[0], found[0].value)] + [] == [] + [StageOf(queries[0], found[0].value)];
      }
    } else {
      var qs, fs := queries[1..], found[1..];
      PartitionReferenceSnoc(qs, fs);
      assert qs[..n - 1] == queries[..n][1..];
      assert fs[..n - 1] == found[..n][1..];
      assert qs[n - 1] == queries[n] && fs[n - 1] == found[n];
      assert queries[..n][0] == queries[0] && found[..n][0] == found[0];
      var inner := PartitionReference(qs[..n - 1], fs[..n - 1]);
      var rest := PartitionReference(qs, fs);
      var before := PartitionReference(queries[..n], found[..n]);
      assert before == match found[0]
                       case Some(card) => ([StageOf(queries[0], card)] + inner.0, inner.1)
                       case None => (inner.0, [queries[0]] + inner.1);
      assert PartitionReference(queries, found) == match found[0]
                       case Some(card) => ([StageOf(queries[0], card)] + rest.0, rest.1)
                       case None => (rest.0, [queries[0]] + rest.1);
      if found[n].Some? {
        var x := StageOf(queries[n], found[n].value);
        assert rest == (inner.0 + [x], inner.1);
        if found[0].Some? {
          var h := StageOf(queries[0], found[0].value);
          assert [h] + (inner.0 + [x]) == ([h] + inner.0) + [x];
        }
      } else {
        assert rest == (inner.0, inner.1 + [queries[n]]);
        if found[0].None? {
          assert [queries[0]] + (inner.1 + [queries[n]]) == ([queries[0]] + inner.1) + [queries[n]];
        }
      }
    }
  }

  /** The `forEach` over the answers: found cards go to `success` with their
      query's amount, missing ones send their query to `failed`. */
  function Partition(queries: seq<CardQueryParam>, found: seq<Option<FoundCard>>)
    : (r: (seq<Staged>, seq<CardQueryParam>))
    requires |found| <= |queries|
    ensures |r.0| + |r.1| == |found|
    ensures |r.1| == multiset(found)[None]
    ensures |r.1| == 0 <==> forall i :: 0 <= i < |found| ==> found[i].Some?
    ensures forall k :: 0 <= k < |r.1| ==> r.1[k] in queries[..|found|]
    ensures r == PartitionReference(queries, found)
  {
    if |found| == 0 then ([], [])
    else
      var n := |found| - 1;
      var (success, failed) := Partition(queries[..n], found[..n]);
      assert queries[..n][..n] == queries[..n];
      assert found == found[..n] + [found[n]];
      PartitionReferenceSnoc(queries, found);
      match found[n]
      case Some(card) =>
        (success + [StageOf(queries[n], card)], failed)
      case None =>
        (success, failed + [queries[n]])
  }

  /** `s` is what is staged for some found card. */
  predicate StagedFromSome(queries: seq<CardQueryParam>, found: seq<Option<FoundCard>>, s: Staged)
    requires |found| <= |queries|
  {
    exists i :: 0 <= i < |found| && StagedFrom(queries, found, i, s)
  }

  /** Every staged card is a found card, with its query's amount and the
      normalised foil flag. */
  lemma {:induction false} PartitionStagesFoundCards(queries: seq<CardQueryParam>, found: seq<Option<FoundCard>>)
    requires |found| <= |queries|
    ensures forall k :: 0 <= k < |Partition(queries, found).0| ==>
              StagedFromSome(queries, found, Partition(queries, found).0[k])
  {
    if |found| > 0 {
      var n := |found| - 1;
      var qs, fs := queries[..n], found[..n];
      PartitionStagesFoundCards(qs, fs);
      var success := Partition(qs, fs).0;
      var all := Partition(queries, found).0;
      assert qs[..n] == qs;
      assert |all| >= |success| && all[..|success|] == success;
      forall k | 0 <= k < |all|
        ensures StagedFromSome(queries, found, all[k])
      {
        if k < |success| {
          assert all[k] == success[k];
          assert StagedFromSome(qs, fs, success[k]);
          var i :| 0 <= i < |fs| && StagedFrom(qs, fs, i, success[k]);
          assert StagedFrom(queries, found, i, all[k]);
        } else {
          assert StagedFrom(queries, found, n, all[k]);
        }
      }
    }
  }

  /** What `handleCardMutate` ends in: the mutation request, or a text area
      holding the failed lines with the found cards added to the staging area. */
  datatype MutateOutcome =
    | Mutate(payloads: seq<UserCardPayload>)
    | Retry(text: string, staging: seq<Staged>)

  function Payload(card: Staged): UserCardPayload {
    UserCardPayload(card.id, card.amount, card.foil, "NM", false, false, false, [])
  }

  /** `handleCardMutate()`. Reading the query of an answer past the last query
      destructures `undefined` and throws. */
  function HandleCardMutate(queries: seq<CardQueryParam>, found: seq<Option<FoundCard>>, staging: seq<Staged>)
    : (r: Result<MutateOutcome>)
    ensures r.Failure? <==> |found| > |queries|
    ensures r.Failure? ==> r.error.TypeError?
    ensures r.Success? ==> (r.value.Mutate? <==> forall i :: 0 <= i < |found| ==> found[i].Some?)
    ensures r.Success? && r.value.Mutate? ==>
              |r.value.payloads| == |found| + |staging|
              && forall k :: 0 <= k < |r.value.payloads| ==>
                   var c := r.value.payloads[k];
                   c.condition == "NM" && !c.altered && !c.misprint && !c.signed && c.tags == []
    ensures r.Success? && r.value.Mutate? ==>
              var cards := PartitionReference(queries, found).0 + staging;
              |r.value.payloads| == |cards| && forall k :: 0 <= k < |cards| ==>
                var c := r.value.payloads[k];
                c.scryfallId == cards[k].id && c.amount == cards[k].amount && c.foil == cards[k].foil
    ensures r.Success? && r.value.Retry? ==> r.value.staging == staging + PartitionReference(queries, found).0
    ensures r.Success? && r.value.Retry? ==>
              var failed := PartitionReference(queries, found).1;
              r.value.text == Join(seq(|failed|, k requires 0 <= k < |failed| => failed[k].originalText), '\n')
  {
    if |found| > |queries| then Failure(TypeError("Cannot destructure property 'amount' of undefined"))
    else
      var (success, failed) := Partition(queries, found);
      if |failed| == 0 then
        var cards := success + staging;
        Success(Mutate(seq(|cards|, k requires 0 <= k < |cards| => Payload(cards[k]))))
      else
        Success(Retry(Join(seq(|failed|, k requires 0 <= k < |failed| => failed[k].originalText), '\n'),
                      staging + success))
  }

  /** The text put back in the text area splits into exactly the failed lines. */
  lemma RetryTextSplitsIntoFailedLines(queries: seq<CardQueryParam>, found: seq<Option<FoundCard>>, staging: seq<Staged>)
    requires |found| <= |queries|
    requires forall i :: 0 <= i < |queries| ==> '\n' !in queries[i].originalText
    requires exists i :: 0 <= i < |found| && found[i].None?
    ensures HandleCardMutate(queries, found, staging).Success?
    ensures HandleCardMutate(queries, found, staging).value.Retry?
    ensures var failed := Partition(queries, found).1;
            Split(HandleCardMutate(queries, found, staging).value.text, '\n')
              == seq(|failed|, k requires 0 <= k < |failed| => failed[k].originalText)
  {
    var failed := Partition(queries, found).1;
    var texts := seq(|failed|, k requires 0 <= k < |failed| => failed[k].originalText);
    forall k | 0 <= k < |texts|
      ensures '\n' !in texts[k]
    {
      assert failed[k] in queries[..|found|];
    }
    SplitJoin(texts, '\n');
  }

  /** The rows of the text area are free of line breaks, so the round trip
      through the text area holds for queries built by `handleSubmit`. */
  lemma SubmittedLinesAreSingleLines(text: string, capture: string -> Captures)
    ensures forall i :: 0 <= i < |Queries(text, capture)| ==> '\n' !in Queries(text, capture)[i].originalText
  {
  }
}
