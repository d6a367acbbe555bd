/** The collection table's custom filter predicates (`filterFns`): set name,
    colour identity, a case-insensitive "weak includes", and comparisons of the
    mana value against `parseInt` of the filter text. Every predicate passes
    every row when its filter value is absent or empty. */
module CardFilters {
  import opened Wrappers
  import opened JsText
  import opened Numerals

  /** The fields of a collection row the predicates read. */
  datatype CardRow = CardRow(setName: string, colorIdentity: Option<seq<string>>, cmc: real)

  /** The colour-identity placeholder for colourless cards. */
  const Colorless: string := "\U{2205}"

  /** `_ifArrayEmpty(array, value)`: `array` unless it is missing or empty. */
  function IfArrayEmpty<T>(items: Option<seq<T>>, fallback: seq<T>): (r: seq<T>)
    ensures items.Some? && |items.value| > 0 ==> r == items.value
    ensures items.None? || |items.value| == 0 ==> r == fallback
  {
    if items.Some? && |items.value| > 0 then items.value else fallback
  }

  /** The colours a row is matched against. */
  function Colors(row: CardRow): seq<string> {
    IfArrayEmpty(row.colorIdentity, [Colorless])
  }

  /** `!filterValue?.length`: no list, or an empty one. */
  predicate NoList<T>(f: Option<seq<T>>) {
    f.None? || |f.value| == 0
  }

  /** `!filterValue` for a string: missing or "". */
  predicate NoText(f: Option<string>) {
    f.None? || |f.value| == 0
  }

  predicate SetName(row: CardRow, f: Option<string>) {
    NoText(f) || row.setName == f.value
  }

  predicate SetNameMulti(row: CardRow, f: Option<seq<string>>) {
    NoList(f) || row.setName in f.value
  }

  /** Every filter colour is among the row's colours. */
  predicate AllIn(colors: seq<string>, row: CardRow) {
    forall i :: 0 <= i < |colors| ==> colors[i] in Colors(row)
  }

  /** Some filter colour is among the row's colours. */
  predicate AnyIn(colors: seq<string>, row: CardRow) {
    exists i :: 0 <= i < |colors| && colors[i] in Colors(row)
  }

  predicate ColorArrayIncludesAll(row: CardRow, f: Option<seq<string>>) {
    NoList(f) || AllIn(f.value, row)
  }

  predicate ColorArrayIncludesAny(row: CardRow, f: Option<seq<string>>) {
    NoList(f) || AnyIn(f.value, row)
  }

  predicate ColorArrayExcludesAny(row: CardRow, f: Option<seq<string>>) {
    NoList(f) || !AnyIn(f.value, row)
  }

  predicate ColorArrayExcludesAll(row: CardRow, f: Option<seq<string>>) {
    NoList(f) || !AllIn(f.value, row)
  }

  /** `weakIncludes`: the cell equals some filter value, ignoring case. */
  predicate WeakIncludes(cell: string, f: Option<seq<string>>) {
    NoList(f) || exists i :: 0 <= i < |f.value| && Lower(cell) == Lower(f.value[i])
  }

  // ---------------------------------------------------------------------------
  // Number.parseInt

  predicate IsHexDigit(c: char) {
    IsDigit(c) || ('a' <= c <= 'f') || ('A' <= c <= 'F')
  }

  function HexDigitValue(c: char): (r: nat)
    requires IsHexDigit(c)
    ensures r < 16
  {
    if IsDigit(c) then DigitValue(c)
    else if 'a' <= c <= 'f' then c as int - 'a' as int + 10
    else c as int - 'A' as int + 10
  }

  /** Length of the longest prefix of `s` whose characters satisfy `ok`. */
  function PrefixWhile(s: string, ok: char -> bool): (r: nat)
    ensures r <= |s|
    ensures forall i :: 0 <= i < r ==> ok(s[i])
    ensures r < |s| ==> !ok(s[r])
  {
    if |s| == 0 || !ok(s[0]) then 0 else 1 + PrefixWhile(s[1..], ok)
  }

  function HexValue(s: string): nat
    requires forall i :: 0 <= i < |s| ==> IsHexDigit(s[i])
  {
    if |s| == 0 then 0 else 16 * HexValue(s[..|s| - 1]) + HexDigitValue(s[|s| - 1])
  }

  /** The digits after an optional sign: hexadecimal after "0x"/"0X", decimal
      otherwise; `None` (NaN) when there are none. */
  function UnsignedPrefix(t: string): (r: Option<nat>)
  {
    if |t| >= 2 && t[0] == '0' && (t[1] == 'x' || t[1] == 'X') then
      var h := t[2..];
      var n := PrefixWhile(h, IsHexDigit);
      if n == 0 then None else Some(HexValue(h[..n]))
    else
      var n := PrefixWhile(t, IsDigit);
      if n == 0 then None else Some(DigitsValue(t[..n]))
  }

  /** `Number.parseInt(s)` with no radix: skips leading whitespace, reads an
      optional sign, then the longest run of digits; `None` stands for NaN. */
  function ParseInt(s: string): (r: Option<int>)
    ensures r.Some? ==> exists i :: 0 <= i < |s| && IsDigit(s[i])
  {
    var t := s[LeadingSpace(s)..];
    var negative := |t| > 0 && t[0] == '-';
    var body := if |t| > 0 && (t[0] == '-' || t[0] == '+') then t[1..] else t;
    match UnsignedPrefix(body)
    case None => None
    case Some(v) =>
      assert IsDigit(body[0]);
      assert body[0] == s[|s| - |body|];
      var n: int := v;
      Some(if negative then -n else n)
  }

  /** A number written in decimal, followed by anything that does not continue
      it, parses back to that number. */
  lemma ParseIntDecimal(n: nat, rest: string)
    requires |rest| > 0 ==> !IsDigit(rest[0]) && (n != 0 || (rest[0] != 'x' && rest[0] != 'X'))
    ensures ParseInt(NatDecimal(n) + rest) == Some(n)
  {
    var d := NatDecimal(n);
    var s := d + rest;
    assert s[0] == d[0];
    assert LeadingSpace(s) == 0;
    assert s[0..] == s;
    assert !(|s| >= 2 && s[0] == '0' && (s[1] == 'x' || s[1] == 'X')) by {
      if |d| > 1 {
        assert s[1] == d[1];
      }
    }
    DecimalRun(d, rest);
    DecimalRoundTrip(n);
  }

  lemma {:induction false} DecimalRun(d: string, rest: string)
    requires AllDigits(d)
    requires |rest| > 0 ==> !IsDigit(rest[0])
    ensures PrefixWhile(d + rest, IsDigit) == |d|
    ensures (d + rest)[..|d|] == d
  {
    if |d| > 0 {
      assert (d + rest)[1..] == d[1..] + rest;
      DecimalRun(d[1..], rest);
    } else {
      assert d + rest == rest;
    }
  }

  // ---------------------------------------------------------------------------
  // Mana value comparisons: the parsed filter is the left operand

  /** A comparison of the filter's number with the row's mana value; NaN
      compares false with everything (and unequal to everything). */
  datatype CmcOp = Eq | Ne | Gt | Ge | Lt | Le

  function Compare(op: CmcOp, left: Option<int>, right: real): bool {
    match left
    case None => op == Ne
    case Some(v) =>
      match op
      case Eq => v as real == right
      case Ne => v as real != right
      case Gt => v as real > right
      case Ge => v as real >= right
      case Lt => v as real < right
      case Le => v as real <= right
  }

  /** `cmcEquals`, `cmcNotEquals`, `cmcGreaterThan`, `cmcGreaterThanOrEqualTo`,
      `cmcLessThan`, `cmcLessThanOrEqualTo`. */
  predicate CmcFilter(op: CmcOp, row: CardRow, f: Option<string>) {
    NoText(f) || Compare(op, ParseInt(f.value), row.cmc)
  }

  // ---------------------------------------------------------------------------
  // Properties

  /** An absent or empty filter value lets every row through, for every predicate. */
  lemma EmptyFilterPassesAll(row: CardRow, cell: string, op: CmcOp, text: Option<string>, list: Option<seq<string>>)
    requires NoText(text) && NoList(list)
    ensures SetName(row, text) && SetNameMulti(row, list)
    ensures ColorArrayIncludesAll(row, list) && ColorArrayIncludesAny(row, list)
    ensures ColorArrayExcludesAny(row, list) && ColorArrayExcludesAll(row, list)
    ensures WeakIncludes(cell, list) && CmcFilter(op, row, text)
  {
  }

  /** A row with no colour identity is matched as the single colour "∅". */
  lemma ColorlessRow(row: CardRow, c: string)
    requires row.colorIdentity.None? || |row.colorIdentity.value| == 0
    ensures ColorArrayIncludesAll(row, Some([Colorless]))
    ensures c != Colorless ==> !ColorArrayIncludesAny(row, Some([c]))
    ensures c != Colorless ==> ColorArrayExcludesAny(row, Some([c]))
  {
    assert Colors(row) == [Colorless];
  }

  /** For a non-empty filter the "excludes" predicates are the negations of the
      "includes" ones. */
  lemma ExcludesNegatesIncludes(row: CardRow, colors: seq<string>)
    requires |colors| > 0
    ensures ColorArrayExcludesAny(row, Some(colors)) == !ColorArrayIncludesAny(row, Some(colors))
    ensures ColorArrayExcludesAll(row, Some(colors)) == !ColorArrayIncludesAll(row, Some(colors))
  {
  }

  /** Including all of a non-empty filter implies including some of it. */
  lemma IncludesAllImpliesAny(row: CardRow, colors: seq<string>)
    requires |colors| > 0 && ColorArrayIncludesAll(row, Some(colors))
    ensures ColorArrayIncludesAny(row, Some(colors))
  {
    assert colors[0] in Colors(row);
  }

  /** `setNameMulti` with a non-empty list is list membership. */
  lemma SetNameMultiIsMembership(row: CardRow, names: seq<string>)
    requires |names| > 0
    ensures SetNameMulti(row, Some(names)) <==> exists i :: 0 <= i < |names| && names[i] == row.setName
  {
    if row.setName in names {
      var i :| 0 <= i < |names| && names[i] == row.setName;
    }
  }

  /** `weakIncludes` does not see letter case on either side. */
  lemma WeakIncludesIgnoresCase(cell: string, values: seq<string>)
    requires |values| > 0
    ensures WeakIncludes(cell, Some(values)) == WeakIncludes(Lower(cell), Some(values))
    ensures WeakIncludes(cell, Some([Lower(cell)]))
  {
    LowerIdempotent(cell);
    assert [Lower(cell)][0] == Lower(cell);
  }

  /** The filter's number is the left operand: "greater than" keeps the rows
      whose mana value is below the number typed. */
  lemma CmcFilterOnLeft(row: CardRow, n: nat)
    ensures CmcFilter(Gt, row, Some(NatDecimal(n))) <==> (n as real) > row.cmc
    ensures CmcFilter(Le, row, Some(NatDecimal(n))) <==> (n as real) <= row.cmc
  {
    ParseIntDecimal(n, "");
    assert NatDecimal(n) + "" == NatDecimal(n);
  }

  /** For a non-empty filter, "not equals" is the negation of "equals", and the
      non-strict comparisons are the strict ones or equality; a filter without
      digits (NaN) passes only "not equals". */
  lemma CmcFilterRelations(row: CardRow, text: string)
    requires |text| > 0
    ensures CmcFilter(Ne, row, Some(text)) == !CmcFilter(Eq, row, Some(text))
    ensures CmcFilter(Ge, row, Some(text)) == (CmcFilter(Gt, row, Some(text)) || CmcFilter(Eq, row, Some(text)))
    ensures CmcFilter(Le, row, Some(text)) == (CmcFilter(Lt, row, Some(text)) || CmcFilter(Eq, row, Some(text)))
    ensures ParseInt(text).None? ==>
              (CmcFilter(Ne, row, Some(text)) && !CmcFilter(Eq, row, Some(text))
               && !CmcFilter(Gt, row, Some(text)) && !CmcFilter(Lt, row, Some(text)))
  {
  }
}
