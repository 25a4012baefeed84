/**
  The text form of a sparse tensor partition
  (cpp/metaspore/array_hash_map_writer.h, array_hash_map_reader.h, string_utils.h).
 */
module TextFormat {
  import opened ArrayHashMaps
  import opened Decimals
  import opened LineReaders
  import opened Sequences
  import opened Wrappers

  const KEY_VALUE_SEPARATOR := '\t'
  const FIELD_SEPARATOR := '|'
  const VALUE_SEPARATOR := ','

  // ---- Splitting ----

  /** The position of the first character of `delims` from `pos` on, or the length when there is none. */
  function FirstOf(s: string, delims: string, pos: nat): (n: nat)
    requires pos <= |s|
    ensures pos <= n <= |s|
    ensures n < |s| ==> s[n] in delims
    ensures forall i :: pos <= i < n ==> s[i] !in delims
    decreases |s| - pos
  {
    if pos == |s| || s[pos] in delims then pos else FirstOf(s, delims, pos + 1)
  }

  /** No character of `s` is a delimiter. */
  predicate Free(s: string, delims: string) {
    forall i :: 0 <= i < |s| ==> s[i] !in delims
  }

  /** The non-empty runs between delimiters. */
  function Fields(s: string, delims: string): seq<string>
    decreases |s|
  {
    if s == [] then []
    else
      var n := FirstOf(s, delims, 0);
      var head := if n > 0 then [s[..n]] else [];
      if n == |s| then head else head + Fields(s[n + 1..], delims)
  }

  /** What the splitter still has to output when it stands at `first`. */
  ghost function FieldsFrom(s: string, delims: string, first: nat): seq<string> {
    if first <= |s| then Fields(s[first..], delims) else []
  }

  method SplitStringView(s: string, delims: string) returns (output: seq<string>)
    ensures output == Fields(s, delims)
  {
    hide Fields, FirstOf, FieldsFrom;
    output := [];
    var first, second := 0, 0;
    FieldsEnds(s, delims);
    while second != |s| && first != |s|
      invariant 0 <= first <= |s| + 1 && 0 <= second <= |s|
      invariant if second == |s| then first >= |s| else first <= |s|
      invariant Fields(s, delims) == output + FieldsFrom(s, delims, first)
      decreases |s| + 1 - first
    {
      FieldsStep(s, delims, first);
      second := FirstOf(s, delims, first);
      if first != second {
        output := output + [s[first..second]];
      }
      first := second + 1;
    }
    assert output + [] == output;
  }

  lemma FieldsEnds(s: string, delims: string)
    ensures FieldsFrom(s, delims, 0) == Fields(s, delims)
    ensures FieldsFrom(s, delims, |s|) == FieldsFrom(s, delims, |s| + 1) == []
  {
    assert s[0..] == s;
  }

  lemma FieldsOf(t: string, delims: string)
    ensures t == [] ==> Fields(t, delims) == []
    ensures t != [] ==>
              var n := FirstOf(t, delims, 0);
              Fields(t, delims) == (if n > 0 then [t[..n]] else []) + if n < |t| then Fields(t[n + 1..], delims) else []
  {}

  lemma FieldsStep(s: string, delims: string, first: nat)
    requires first < |s|
    ensures var n := FirstOf(s, delims, first);
            FieldsFrom(s, delims, first) == (if n > first then [s[first..n]] else []) + FieldsFrom(s, delims, n + 1)
  {
    hide FirstOf, Fields;
    FieldsOf(s[first..], delims);
    var n := FirstOf(s, delims, first);
    FirstInSuffix(s, delims, first);
    assert s[first..][..n - first] == s[first..n];
    assert n < |s| ==> s[first..][n - first + 1..] == s[n + 1..];
  }

  lemma FirstInSuffix(s: string, delims: string, pos: nat)
    requires pos <= |s|
    ensures FirstOf(s[pos..], delims, 0) == FirstOf(s, delims, pos) - pos
  {}

  /** Splitting at the first delimiter. */
  lemma FieldsFirst(head: string, d: char, rest: string, delims: string)
    requires Free(head, delims) && d in delims
    ensures Fields(head + [d] + rest, delims) == (if head == [] then [] else [head]) + Fields(rest, delims)
  {
    hide Fields, FirstOf;
    var s := head + [d] + rest;
    var n := FirstOf(s, delims, 0);
    assert s[|head|] == d && forall i :: 0 <= i < |head| ==> s[i] == head[i];
    FieldsOf(s, delims);
    assert s[..|head|] == head && s[|head| + 1..] == rest;
  }

  lemma FieldsLast(last: string, delims: string)
    requires Free(last, delims)
    ensures Fields(last, delims) == if last == [] then [] else [last]
  {
    hide FirstOf, Fields;
    FieldsOf(last, delims);
    assert last[..|last|] == last;
  }

  /** Splitting works piece by piece at any delimiter. */
  lemma {:induction false} FieldsAppend(s: string, d: char, rest: string, delims: string)
    requires d in delims
    ensures Fields(s + [d] + rest, delims) == Fields(s, delims) + Fields(rest, delims)
    decreases |s|
  {
    hide Fields, FirstOf;
    var n := FirstOf(s, delims, 0);
    if n < |s| {
      var head, tail := s[..n], s[n + 1..];
      FieldsFirst(head, s[n], tail, delims);
      FieldsFirst(head, s[n], tail + [d] + rest, delims);
      FieldsAppend(tail, d, rest, delims);
      assert s == head + [s[n]] + tail;
      assert s + [d] + rest == head + [s[n]] + (tail + [d] + rest);
    } else {
      FieldsFirst(s, d, rest, delims);
      FieldsLast(s, delims);
    }
  }

  // ---- Reading numbers ----

  predicate IsSpace(c: char) {
    c == ' ' || 9 as char <= c <= 13 as char
  }

  function SkipSpaces(s: string): string {
    if s != [] && IsSpace(s[0]) then SkipSpaces(s[1..]) else s
  }

  /** The leading digits. */
  function LeadingDigits(s: string): (r: string)
    ensures forall i :: 0 <= i < |r| ==> IsDigit(r[i])
  {
    if s != [] && IsDigit(s[0]) then [s[0]] + LeadingDigits(s[1..]) else []
  }

  /** A 32- or 64-bit integer type. */
  datatype IntType = IntType(isSigned: bool, bits: nat)

  const INT32 := IntType(true, 32)
  const UINT64 := IntType(false, 64)

  /** The number of values of a type. */
  function Span(t: IntType): int {
    if t.bits == 64 then 0x1_0000_0000_0000_0000 else 0x1_0000_0000
  }

  predicate InRange(t: IntType, v: int) {
    if t.isSigned then -Span(t) / 2 <= v < Span(t) / 2 else 0 <= v < Span(t)
  }

  /**
    What stream extraction and `stoul` read at the start of a text: spaces, a sign, digits.
    None when there are no digits or the number is out of range; a negated unsigned number wraps.
   */
  function ParseNumber(t: IntType, s: string): Option<int> {
    var body := SkipSpaces(s);
    var negative := body != [] && body[0] == '-';
    var digits := LeadingDigits(if body != [] && (body[0] == '-' || body[0] == '+') then body[1..] else body);
    var v: int := DigitsValue(digits);
    if digits == [] then None
    else if t.isSigned then
      if InRange(t, if negative then -v else v) then Some(if negative then -v else v) else None
    else if v >= Span(t) then None
    else Some(if negative && v > 0 then Span(t) - v else v)
  }

  /** The ranges of the types of keys, ages and items. */
  lemma RangesAre(v: int)
    ensures InRange(UINT64, v) <==> 0 <= v <= 0xFFFF_FFFF_FFFF_FFFF
    ensures InRange(INT32, v) <==> -0x8000_0000 <= v <= 0x7FFF_FFFF
    ensures InRange(IntType(false, 32), v) <==> 0 <= v <= 0xFFFF_FFFF
    ensures InRange(IntType(true, 64), v) <==> -0x8000_0000_0000_0000 <= v <= 0x7FFF_FFFF_FFFF_FFFF
  {}

  lemma {:induction false} SpacesSkipped(spaces: string, s: string)
    requires forall i :: 0 <= i < |spaces| ==> spaces[i] in " \t\n\r" || spaces[i] in {11 as char, 12 as char}
    ensures SkipSpaces(spaces + s) == SkipSpaces(s)
  {
    if spaces == [] {
      assert spaces + s == s;
    } else {
      SpacesSkipped(spaces[1..], s);
      assert (spaces + s)[1..] == spaces[1..] + s;
    }
  }

  lemma {:induction false} DigitsLead(digits: string, rest: string)
    requires forall i :: 0 <= i < |digits| ==> IsDigit(digits[i])
    requires rest == [] || !('0' <= rest[0] <= '9')
    ensures LeadingDigits(digits + rest) == digits
  {
    if digits == [] {
      assert digits + rest == rest;
    } else {
      DigitsLead(digits[1..], rest);
      assert (digits + rest)[1..] == digits[1..] + rest;
    }
  }

  /** How a number is read: leading spaces and a sign are allowed, what follows the digits is not looked at. */
  lemma ParsesNumeral(t: IntType, spaces: string, n: nat, rest: string)
    requires forall i :: 0 <= i < |spaces| ==> spaces[i] in " \t\n\r" || spaces[i] in {11 as char, 12 as char}
    requires rest == [] || !('0' <= rest[0] <= '9')
    ensures ParseNumber(t, spaces + (Decimal(n) + rest)) == if InRange(t, n) then Some(n) else None
    ensures ParseNumber(t, spaces + ("+" + Decimal(n) + rest)) == if InRange(t, n) then Some(n) else None
    ensures ParseNumber(t, spaces + ("-" + Decimal(n) + rest))
            == if t.isSigned then if InRange(t, -(n as int)) then Some(-(n as int)) else None
               else if InRange(t, n) then Some(if n > 0 then Span(t) - n else 0)
               else None
  {
    hide Digits, DigitsValue, LeadingDigits, SkipSpaces;
    var d := Decimal(n);
    DigitsLead(d, rest);
    DigitsValueOf(n);
    SpacesSkipped(spaces, d + rest);
    SpacesSkipped(spaces, "+" + d + rest);
    SpacesSkipped(spaces, "-" + d + rest);
    NoSpaceAhead(d + rest);
    NoSpaceAhead("+" + d + rest);
    NoSpaceAhead("-" + d + rest);
    assert ("+" + d + rest)[1..] == d + rest && ("-" + d + rest)[1..] == d + rest;
  }

  lemma NoSpaceAhead(s: string)
    requires s != [] && (IsDigit(s[0]) || s[0] in "+-")
    ensures SkipSpaces(s) == s
  {}

  /** Without a digit at its place nothing is read. */
  lemma ParsesNothing(t: IntType, spaces: string, rest: string)
    requires forall i :: 0 <= i < |spaces| ==> spaces[i] in " \t\n\r" || spaces[i] in {11 as char, 12 as char}
    requires rest == [] || !('0' <= rest[0] <= '9' || IsSpace(rest[0]) || rest[0] in "+-")
    ensures ParseNumber(t, spaces + rest) == None
  {
    SpacesSkipped(spaces, rest);
  }

  lemma {:induction false} AllDigitsLead(s: string)
    requires forall i :: 0 <= i < |s| ==> IsDigit(s[i])
    ensures LeadingDigits(s) == s
  {
    if s != [] {
      AllDigitsLead(s[1..]);
    }
  }

  /** A number written in decimal is read back. */
  lemma NumberRoundTrip(t: IntType, v: int)
    requires InRange(t, v)
    ensures ParseNumber(t, Decimal(v)) == Some(v)
  {
    hide Digits, DigitsValue, LeadingDigits;
    var digits := Digits(if v < 0 then -v else v);
    AllDigitsLead(digits);
    DigitsValueOf(if v < 0 then -v else v);
    assert Decimal(v) == if v < 0 then ['-'] + digits else digits;
    assert v < 0 ==> Decimal(v)[1..] == digits;
    NumeralStart(Decimal(v));
  }

  lemma NumeralStart(s: string)
    requires s != [] && (IsDigit(s[0]) || s[0] == '-')
    ensures SkipSpaces(s) == s && s[0] != '+'
  {}

  // ---- Value lists ----

  /** The first `n` values, separated. */
  function Listed(values: seq<int>, n: nat): string
    requires n <= |values|
  {
    if n == 0 then []
    else if n == 1 then Decimal(values[0])
    else Listed(values, n - 1) + [VALUE_SEPARATOR] + Decimal(values[n - 1])
  }

  /** Extracts `|strs|` values; None when one of them does not parse. */
  function ParsedTo(t: IntType, strs: seq<string>, n: nat): (r: Option<seq<int>>)
    requires n <= |strs|
    ensures r.Some? ==> |r.value| == n
  {
    if n == 0 then Some([])
    else
      var r, v := ParsedTo(t, strs, n - 1), ParseNumber(t, strs[n - 1]);
      if r.None? || v.None? then None else Some(r.value + [v.value])
  }

  function ParseValues(t: IntType, text: string, count: nat): (r: Option<seq<int>>)
    ensures r.Some? ==> |r.value| == count
  {
    var strs := Fields(text, [VALUE_SEPARATOR]);
    if |strs| != count then None else ParsedTo(t, strs, count)
  }

  lemma {:induction false} ParsedStops(t: IntType, strs: seq<string>, i: nat, n: nat)
    requires i <= n <= |strs| && ParsedTo(t, strs, i).None?
    ensures ParsedTo(t, strs, n).None?
  {
    if i < n {
      ParsedStops(t, strs, i, n - 1);
    }
  }

  /** Parses the values in place; on failure some of the items may have been overwritten. */
  method ParseDataOrStateValues(t: IntType, text: string, items: array<int>) returns (ok: bool)
    modifies items
    ensures ok <==> ParseValues(t, text, items.Length).Some?
    ensures ok ==> items[..] == ParseValues(t, text, items.Length).value
  {
    hide ParseNumber, Fields;
    var strs := SplitStringView(text, [VALUE_SEPARATOR]);
    if |strs| != items.Length {
      return false;
    }
    for i := 0 to items.Length
      invariant ParsedTo(t, strs, i) == Some(items[..i])
    {
      var value := ParseNumber(t, strs[i]);
      if value.None? {
        ParsedStops(t, strs, i + 1, |strs|);
        return false;
      }
      ghost var done := items[..i];
      items[i] := value.value;
      assert items[..i + 1] == done + [value.value];
    }
    assert items[..items.Length] == items[..];
    ok := true;
  }

  /** The characters a numeral is made of. */
  predicate NumeralChars(s: string) {
    forall i :: 0 <= i < |s| ==> IsDigit(s[i]) || s[i] == '-'
  }

  lemma DecimalChars(v: int)
    ensures Decimal(v) != [] && NumeralChars(Decimal(v))
    ensures VALUE_SEPARATOR !in Decimal(v)
  {}

  ghost function Numerals(values: seq<int>, n: nat): (r: seq<string>)
    requires n <= |values|
    ensures |r| == n
  {
    seq(n, i requires 0 <= i < n => Decimal(values[i]))
  }

  lemma {:induction false} ListedFields(values: seq<int>, n: nat)
    requires n <= |values|
    ensures Fields(Listed(values, n), [VALUE_SEPARATOR]) == Numerals(values, n)
  {
    hide Decimal, Fields;
    if n == 0 {
      FieldsLast([], [VALUE_SEPARATOR]);
    } else {
      DecimalChars(values[n - 1]);
      FieldsLast(Decimal(values[n - 1]), [VALUE_SEPARATOR]);
      if n > 1 {
        ListedFields(values, n - 1);
        FieldsAppend(Listed(values, n - 1), VALUE_SEPARATOR, Decimal(values[n - 1]), [VALUE_SEPARATOR]);
      }
    }
  }

  lemma {:induction false} DecimalsParse(t: IntType, values: seq<int>, n: nat)
    requires n <= |values| && forall i :: 0 <= i < |values| ==> InRange(t, values[i])
    ensures ParsedTo(t, Numerals(values, |values|), n) == Some(values[..n])
  {
    hide Decimal, ParseNumber, InRange;
    if n > 0 {
      DecimalsParse(t, values, n - 1);
      NumberRoundTrip(t, values[n - 1]);
      assert values[..n] == values[..n - 1] + [values[n - 1]];
    }
  }

  /** A written value list is read back. */
  lemma ValuesRoundTrip(t: IntType, values: seq<int>)
    requires forall i :: 0 <= i < |values| ==> InRange(t, values[i])
    ensures ParseValues(t, Listed(values, |values|), |values|) == Some(values)
  {
    hide Fields, ParsedTo, Numerals, InRange;
    ListedFields(values, |values|);
    DecimalsParse(t, values, |values|);
    assert values[..|values|] == values;
  }

  lemma {:induction false} ListedChars(values: seq<int>, n: nat)
    requires n <= |values|
    ensures KEY_VALUE_SEPARATOR !in Listed(values, n) && FIELD_SEPARATOR !in Listed(values, n)
    ensures LINE_TERMINATOR !in Listed(values, n)
    ensures Listed(values, n) == [] <==> n == 0
  {
    hide Decimal;
    if n > 0 {
      DecimalChars(values[n - 1]);
      if n > 1 {
        ListedChars(values, n - 1);
      }
    }
  }

  // ---- One line ----

  datatype Format = Format(itemType: IntType, dataItems: nat, stateItems: nat)

  /** One key with its slice of integers. */
  datatype Entry = Entry(key: Key, data: seq<int>, state: seq<int>, age: int)

  predicate Fits(f: Format, e: Entry) {
    && |e.data| == f.dataItems && |e.state| == f.stateItems && InRange(INT32, e.age)
    && (forall i :: 0 <= i < |e.data| ==> InRange(f.itemType, e.data[i]))
    && (forall i :: 0 <= i < |e.state| ==> InRange(f.itemType, e.state[i]))
  }

  /** Data, state and age. */
  function ValueText(e: Entry): string {
    Listed(e.data, |e.data|) + [FIELD_SEPARATOR] + Listed(e.state, |e.state|) + [FIELD_SEPARATOR] + Decimal(e.age)
  }

  function LineText(e: Entry): string {
    Decimal(e.key) + [KEY_VALUE_SEPARATOR] + ValueText(e)
  }

  /** What a line looks like: key, tab, data, bar, state, bar, age, with commas in the lists. */
  lemma LineIs(key: Key, d0: int, d1: int, s0: int, age: int)
    ensures LineText(Entry(key, [d0, d1], [s0], age))
            == Decimal(key) + "\t" + Decimal(d0) + "," + Decimal(d1) + "|" + Decimal(s0) + "|" + Decimal(age)
  {
    hide Decimal;
    var data := [d0, d1];
    assert Listed(data, 1) == Decimal(d0) && Listed(data, 2) == Decimal(d0) + "," + Decimal(d1);
    assert Listed([s0], 1) == Decimal(s0);
  }

  /** Appends the values with separators between them. */
  method AppendValues(sout: string, values: seq<int>) returns (r: string)
    ensures r == sout + Listed(values, |values|)
  {
    r := sout;
    for i := 0 to |values|
      invariant r == sout + Listed(values, i)
    {
      if i > 0 {
        r := r + [VALUE_SEPARATOR];
      }
      r := r + Decimal(values[i]);
    }
  }

  method WriteEntry(e: Entry) returns (sout: string)
    ensures sout == LineText(e) + [LINE_TERMINATOR]
  {
    hide Decimal, Listed;
    sout := Decimal(e.key);
    sout := sout + [KEY_VALUE_SEPARATOR];
    sout := AppendValues(sout, e.data);
    sout := sout + [FIELD_SEPARATOR];
    sout := AppendValues(sout, e.state);
    sout := sout + [FIELD_SEPARATOR];
    sout := sout + Decimal(e.age);
    sout := sout + [LINE_TERMINATOR];
  }

  function ParseValueText(f: Format, key: Key, text: string): Option<Entry> {
    var fields := Fields(text, [FIELD_SEPARATOR]);
    if |fields| != 3 then None
    else
      var data := ParseValues(f.itemType, fields[0], f.dataItems);
      var state := ParseValues(f.itemType, fields[1], f.stateItems);
      var age := ParseNumber(INT32, fields[2]);
      if data.None? || state.None? || age.None? then None else Some(Entry(key, data.value, state.value, age.value))
  }

  /** A line read as an entry; None when the code throws. */
  function ParseLine(f: Format, text: string): Option<Entry> {
    var pair := Fields(text, [KEY_VALUE_SEPARATOR]);
    if |pair| != 2 then None
    else
      var key := ParseNumber(UINT64, pair[0]);
      if key.None? then None
      else
        ParsedKeyFits(pair[0]);
        ParseValueText(f, key.value, pair[1])
  }

  lemma ParsedKeyFits(s: string)
    ensures ParseNumber(UINT64, s).Some? ==> 0 <= ParseNumber(UINT64, s).value < 0x1_0000_0000_0000_0000
  {}

  /** The three parts of the value text, when none of them holds the separator: empty ones vanish. */
  lemma ValueTextFields(a: string, b: string, c: string)
    requires FIELD_SEPARATOR !in a && FIELD_SEPARATOR !in b && FIELD_SEPARATOR !in c && c != []
    ensures Fields(a + [FIELD_SEPARATOR] + b + [FIELD_SEPARATOR] + c, [FIELD_SEPARATOR])
            == (if a == [] then [] else [a]) + (if b == [] then [] else [b]) + [c]
  {
    hide Fields;
    var d := FIELD_SEPARATOR;
    FieldsFirst(a, d, b + [d] + c, [d]);
    FieldsFirst(b, d, c, [d]);
    FieldsLast(c, [d]);
    assert a + [d] + b + [d] + c == a + [d] + (b + [d] + c);
  }

  /**
    Reading a written line gives back the entry exactly when the tensor has data and state
    items; otherwise the splitter drops the empty field and the reader throws.
   */
  lemma LineRoundTrip(f: Format, e: Entry)
    requires Fits(f, e)
    ensures ParseLine(f, LineText(e)) == if f.dataItems > 0 && f.stateItems > 0 then Some(e) else None
  {
    hide Decimal, Listed, Fields, ParseValues, ParseNumber, InRange;
    var key, value := Decimal(e.key), ValueText(e);
    ListedChars(e.data, |e.data|);
    ListedChars(e.state, |e.state|);
    DecimalChars(e.key);
    DecimalChars(e.age);
    ValueTextFields(Listed(e.data, |e.data|), Listed(e.state, |e.state|), Decimal(e.age));
    FieldsFirst(key, KEY_VALUE_SEPARATOR, value, [KEY_VALUE_SEPARATOR]);
    NoSeparator(e);
    FieldsLast(value, [KEY_VALUE_SEPARATOR]);
    KeyInRange(e.key);
    NumberRoundTrip(UINT64, e.key);
    NumberRoundTrip(INT32, e.age);
    ValuesRoundTrip(f.itemType, e.data);
    ValuesRoundTrip(f.itemType, e.state);
  }

  lemma KeyInRange(key: Key)
    ensures InRange(UINT64, key)
    ensures KEY_VALUE_SEPARATOR !in Decimal(key) && LINE_TERMINATOR !in Decimal(key)
  {}

  lemma NoSeparator(e: Entry)
    ensures KEY_VALUE_SEPARATOR !in ValueText(e) && ValueText(e) != []
    ensures LINE_TERMINATOR !in ValueText(e)
  {
    hide Decimal, Listed;
    ListedChars(e.data, |e.data|);
    ListedChars(e.state, |e.state|);
    DecimalChars(e.age);
  }

  // ---- The whole file ----

  function FileText(entries: seq<Entry>, n: nat): string
    requires n <= |entries|
  {
    if n == 0 then [] else FileText(entries, n - 1) + LineText(entries[n - 1]) + [LINE_TERMINATOR]
  }

  /** One write per entry of the map, in the order of its dense arrays. */
  method WriteData(entries: seq<Entry>) returns (out: string)
    ensures out == FileText(entries, |entries|)
  {
    hide LineText;
    out := [];
    for i := 0 to |entries|
      invariant out == FileText(entries, i)
    {
      var sout := WriteEntry(entries[i]);
      assert out + sout == out + LineText(entries[i]) + [LINE_TERMINATOR];
      out := out + sout;
    }
  }

  lemma SplitFirst(s: string, d: char) returns (head: string, tail: string)
    requires d in s
    ensures s == head + [d] + tail && d !in head
  {
    var n := FindFrom(s, d, 0);
    head, tail := s[..n], s[n + 1..];
  }

  /** Terminated text splits into the lines of its parts. */
  lemma {:induction false} LinesAppend(a: string, b: string)
    requires a == [] || a[|a| - 1] == LINE_TERMINATOR
    ensures Lines(a + b) == Lines(a) + Lines(b)
    decreases |a|
  {
    hide Lines, FindFrom;
    NoLines();
    if a == [] {
      assert a + b == b;
    } else {
      var head, tail := SplitFirst(a, LINE_TERMINATOR);
      LinesFirst(head, tail);
      LinesFirst(head, tail + b);
      LinesAppend(tail, b);
      assert a + b == head + [LINE_TERMINATOR] + (tail + b);
    }
  }

  lemma LineHasNoTerminator(e: Entry)
    ensures LINE_TERMINATOR !in LineText(e)
  {
    hide Decimal, Listed, ValueText;
    KeyInRange(e.key);
    NoSeparator(e);
  }

  lemma {:induction false} FileLines(entries: seq<Entry>, n: nat)
    requires n <= |entries|
    ensures Lines(FileText(entries, n)) == seq(n, i requires 0 <= i < n => LineText(entries[i]))
  {
    hide LineText, Lines;
    if n == 0 {
      NoLines();
    } else {
      FileLines(entries, n - 1);
      var line := LineText(entries[n - 1]);
      LineHasNoTerminator(entries[n - 1]);
      LinesFirst(line, []);
      NoLines();
      assert line + [LINE_TERMINATOR] + [] == line + [LINE_TERMINATOR];
      LinesAppend(FileText(entries, n - 1), line + [LINE_TERMINATOR]);
      assert FileText(entries, n) == FileText(entries, n - 1) + (line + [LINE_TERMINATOR]);
    }
  }

  lemma NoLines()
    ensures Lines([]) == []
  {}

  /** The map after the first `n` lines: each line's key is found or inserted and its slice set. */
  ghost function LoadLines(f: Format, lines: seq<string>, n: nat): map<Key, Entry>
    requires n <= |lines|
  {
    if n == 0 then map[]
    else
      var e := ParseLine(f, lines[n - 1]);
      if e.None? then LoadLines(f, lines, n - 1) else LoadLines(f, lines, n - 1)[e.value.key := e.value]
  }

  function Keys(entries: seq<Entry>): (ks: seq<Key>)
    ensures |ks| == |entries|
  {
    seq(|entries|, i requires 0 <= i < |entries| => entries[i].key)
  }

  /**
    Writing a partition and splitting the text again: every line is accepted, and the map
    holds each key's data, state and age again.
   */
  lemma FileRoundTrip(f: Format, entries: seq<Entry>)
    requires f.dataItems > 0 && f.stateItems > 0 && Unique(Keys(entries))
    requires forall i :: 0 <= i < |entries| ==> Fits(f, entries[i])
    ensures var lines := Lines(FileText(entries, |entries|));
            && |lines| == |entries|
            && Accepted(lines, (text: string) => ParseLine(f, text).Some?) == |lines|
            && LoadLines(f, lines, |lines|) == ToMap(Keys(entries), entries)
  {
    hide Lines, LineText, ParseLine, Fits, Unique, ToMap;
    var lines := Lines(FileText(entries, |entries|));
    FileLines(entries, |entries|);
    forall i | 0 <= i < |lines| ensures ParseLine(f, lines[i]) == Some(entries[i]) {
      LineRoundTrip(f, entries[i]);
    }
    AcceptedIs(lines, (text: string) => ParseLine(f, text).Some?, |lines|);
    assert Keys(entries)[..|entries|] == Keys(entries) && entries[..|entries|] == entries;
    LoadedPrefix(f, lines, entries, |lines|);
  }

  lemma {:induction false} LoadedPrefix(f: Format, lines: seq<string>, entries: seq<Entry>, n: nat)
    requires n <= |lines| == |entries| && Unique(Keys(entries)) && Unique(Keys(entries)[..n])
    requires forall i :: 0 <= i < |lines| ==> ParseLine(f, lines[i]) == Some(entries[i])
    ensures LoadLines(f, lines, n) == ToMap(Keys(entries)[..n], entries[..n])
  {
    hide ParseLine, Unique, ToMap;
    var ks := Keys(entries);
    if n > 0 {
      UniquePrefix(ks, n - 1);
      LoadedPrefix(f, lines, entries, n - 1);
      ToMapAppend(ks[..n - 1], entries[..n - 1], ks[n - 1], entries[n - 1]);
      assert ks[..n] == ks[..n - 1] + [ks[n - 1]] && entries[..n] == entries[..n - 1] + [entries[n - 1]];
    } else {
      assert ToMap(ks[..0], entries[..0]) == map[];
    }
  }

  /** A written partition does not look like a binary map. */
  lemma TextIsNotBinary(entries: seq<Entry>, headerSize: nat)
    requires headerSize > 0
    ensures !IsBinary(FileText(entries, |entries|), headerSize, SignatureValid)
  {
    hide FileText;
    FileStart(entries, |entries|);
    assert MAP_FILE_SIGNATURE[0] == 137 as char;
  }

  lemma {:induction false} FileStart(entries: seq<Entry>, n: nat)
    requires n <= |entries|
    ensures FileText(entries, n) != [] ==> IsDigit(FileText(entries, n)[0]) || FileText(entries, n)[0] == '-'
  {
    hide Decimal, ValueText;
    if n > 0 {
      FileStart(entries, n - 1);
      DecimalChars(entries[n - 1].key);
    }
  }

  /** Reads a text stream and inserts what each line holds, up to the first line that throws. */
  method Load(f: Format, stream: Stream, headerSize: nat) returns (binary: bool, ok: bool, m: map<Key, Entry>)
    requires stream.Valid() && headerSize > 0
    modifies stream
    ensures stream.full ==> (binary <==> IsBinary(old(stream.Remaining()), headerSize, SignatureValid))
    ensures binary ==> IsBinary(old(stream.Remaining()), headerSize, SignatureValid)
    ensures !binary ==>
              var lines := Lines(old(stream.Remaining()));
              var n := Accepted(lines, (text: string) => ParseLine(f, text).Some?);
              (ok <==> n == |lines|) && m == LoadLines(f, lines, n)
  {
    hide Lines, ParseLine, Numbered, Accepted;
    var accepts := (text: string) => ParseLine(f, text).Some?;
    var reader := new LineReader(stream, accepts);
    ghost var lines := Lines(stream.Remaining());
    binary, ok := ReadTextFile(reader, headerSize, SignatureValid);
    m := map[];
    if !binary {
      ghost var n := Accepted(lines, accepts);
      NumberedLines(lines, accepts, ok);
      for i := 0 to |reader.processed|
        invariant m == LoadLines(f, lines, i)
      {
        var e := ParseLine(f, reader.processed[i].1);
        if e.Some? {
          m := m[e.value.key := e.value];
        }
      }
    }
  }

  /** The lines handed on are those accepted, and the rejected one if there is one. */
  lemma NumberedLines(lines: seq<string>, accepts: string -> bool, ok: bool)
    requires ok <==> Accepted(lines, accepts) == |lines|
    ensures var n := Accepted(lines, accepts);
            var processed := Numbered(lines[..if ok then n else n + 1]);
            && |processed| == (if ok then n else n + 1) <= |lines|
            && forall i :: 0 <= i < |processed| ==> processed[i].1 == lines[i]
  {
    hide Accepted;
  }

  /**
    A partition written and read back, however the stream delivers the file: the reading
    succeeds with the same map exactly when there is nothing to read or the tensor has
    data and state items; otherwise it throws.
   */
  method WriteAndLoad(f: Format, entries: seq<Entry>, full: bool, headerSize: nat)
    returns (ok: bool, m: map<Key, Entry>)
    requires headerSize > 0 && Unique(Keys(entries)) && forall i :: 0 <= i < |entries| ==> Fits(f, entries[i])
    ensures ok <==> entries == [] || (f.dataItems > 0 && f.stateItems > 0)
    ensures ok ==> m == ToMap(Keys(entries), entries)
  {
    hide *;
    var text := WriteData(entries);
    var stream := new Stream(text, full);
    TextIsNotBinary(entries, headerSize);
    var binary;
    binary, ok, m := Load(f, stream, headerSize);
    WrittenLoads(f, entries);
  }

  lemma WrittenLoads(f: Format, entries: seq<Entry>)
    requires Unique(Keys(entries)) && forall i :: 0 <= i < |entries| ==> Fits(f, entries[i])
    ensures var lines := Lines(FileText(entries, |entries|));
            var n := Accepted(lines, (text: string) => ParseLine(f, text).Some?);
            && (n == |lines| <==> entries == [] || (f.dataItems > 0 && f.stateItems > 0))
            && (n == |lines| ==> LoadLines(f, lines, n) == ToMap(Keys(entries), entries))
  {
    hide Lines, LineText, ParseLine, Fits, Unique, ToMap;
    var lines := Lines(FileText(entries, |entries|));
    FileLines(entries, |entries|);
    if entries == [] {
      NothingLoaded(f, entries);
    } else if f.dataItems > 0 && f.stateItems > 0 {
      FileRoundTrip(f, entries);
    } else {
      LineRoundTrip(f, entries[0]);
      AcceptedIs(lines, (text: string) => ParseLine(f, text).Some?, 0);
    }
  }

  lemma NothingLoaded(f: Format, entries: seq<Entry>)
    requires entries == []
    ensures LoadLines(f, [], 0) == map[] == ToMap(Keys(entries), entries)
  {}
}
