/** `JSON.stringify` of an array of strings and nulls, over UTF-16 code units, and a reader for it.

    The escapes are those of section 7 of RFC 8259 in the form ECMAScript writes them: short escapes
    where they exist, lower-case `\u00xx` for other control characters and `\udxxx` for a surrogate
    without its partner. */
module JsonText {
  import opened Sequences
  import opened Wrappers

  type CodeUnit = u: int | 0 <= u < 0x10000
  type Text = seq<CodeUnit>

  const QUOTE: CodeUnit := 0x22
  const COMMA: CodeUnit := 0x2C
  const OPEN: CodeUnit := 0x5B
  const BACKSLASH: CodeUnit := 0x5C
  const CLOSE: CodeUnit := 0x5D
  const LETTER_U: CodeUnit := 0x75
  /** `null` */
  const NULL_TEXT: Text := [0x6E, 0x75, 0x6C, 0x6C]

  predicate High(u: CodeUnit) { 0xD800 <= u < 0xDC00 }

  predicate Low(u: CodeUnit) { 0xDC00 <= u < 0xE000 }

  function HexDigit(d: int): CodeUnit
    requires 0 <= d < 16
  {
    if d < 10 then 0x30 + d else 0x61 + d - 10
  }

  function UnicodeEscape(u: CodeUnit): Text {
    [BACKSLASH, LETTER_U, HexDigit(u / 0x1000), HexDigit(u / 0x100 % 16), HexDigit(u / 16 % 16), HexDigit(u % 16)]
  }

  /** The letter of the short escape of `u`, if it has one. */
  function ShortEscape(u: CodeUnit): Option<CodeUnit> {
    if u == QUOTE || u == BACKSLASH then Some(u)
    else if u == 0x08 then Some(0x62)
    else if u == 0x09 then Some(0x74)
    else if u == 0x0A then Some(0x6E)
    else if u == 0x0C then Some(0x66)
    else if u == 0x0D then Some(0x72)
    else None
  }

  /** The form of a unit that is not half of a surrogate pair. */
  function EscapeUnit(u: CodeUnit): Text {
    match ShortEscape(u)
    case Some(letter) => [BACKSLASH, letter]
    case None => if u < 0x20 || High(u) || Low(u) then UnicodeEscape(u) else [u]
  }

  function Escape(s: Text): Text {
    if s == [] then []
    else if StartsWithPair(s) then [s[0], s[1]] + Escape(s[2..])
    else EscapeUnit(s[0]) + Escape(s[1..])
  }

  function Element(field: Option<Text>): Text {
    match field
    case None => NULL_TEXT
    case Some(s) => [QUOTE] + Escape(s) + [QUOTE]
  }

  /** The elements, separated by commas and closed by a bracket. */
  function Elements(fields: seq<Option<Text>>): Text
    requires fields != []
  {
    if |fields| == 1 then Element(fields[0]) + [CLOSE]
    else Element(fields[0]) + [COMMA] + Elements(fields[1..])
  }

  function Stringify(fields: seq<Option<Text>>): Text
    requires fields != []
  {
    [OPEN] + Elements(fields)
  }

  // --- reading it back --------------------------------------------------------------------------

  function HexValue(u: CodeUnit): Option<int> {
    if 0x30 <= u <= 0x39 then Some(u - 0x30)
    else if 0x61 <= u <= 0x66 then Some(u - 0x61 + 10)
    else None
  }

  function ShortMeaning(letter: CodeUnit): Option<CodeUnit> {
    if letter == QUOTE || letter == BACKSLASH then Some(letter)
    else if letter == 0x62 then Some(0x08)
    else if letter == 0x74 then Some(0x09)
    else if letter == 0x6E then Some(0x0A)
    else if letter == 0x66 then Some(0x0C)
    else if letter == 0x72 then Some(0x0D)
    else None
  }

  function ReadUnicode(t: Text): Option<CodeUnit>
    requires |t| >= 4
  {
    match (HexValue(t[0]), HexValue(t[1]), HexValue(t[2]), HexValue(t[3]))
    case (Some(a), Some(b), Some(c), Some(d)) =>
      var u := a * 0x1000 + b * 0x100 + c * 16 + d;
      if 0 <= u < 0x10000 then Some(u) else None
    case _ => None
  }

  /** One character of a string literal: its value and its length in the text. */
  function ReadUnit(t: Text): (r: Option<(CodeUnit, nat)>)
    ensures r.Some? ==> 1 <= r.value.1 <= |t|
  {
    if t == [] || t[0] == QUOTE then None
    else if t[0] != BACKSLASH then Some((t[0], 1))
    else if |t| < 2 then None
    else if t[1] == LETTER_U then
      if |t| < 6 then None
      else match ReadUnicode(t[2..]) case Some(u) => Some((u, 6)) case None => None
    else match ShortMeaning(t[1]) case Some(u) => Some((u, 2)) case None => None
  }

  /** The rest of a string literal up to its closing quote, and what follows it. */
  function ReadString(t: Text): (r: Option<(Text, Text)>)
    ensures r.Some? ==> |r.value.1| < |t|
    decreases |t|
  {
    if t != [] && t[0] == QUOTE then Some(([], t[1..]))
    else match ReadUnit(t)
      case None => None
      case Some(unit) =>
        match ReadString(t[unit.1..])
        case None => None
        case Some(rest) => Some(([unit.0] + rest.0, rest.1))
  }

  function ReadElement(t: Text): (r: Option<(Option<Text>, Text)>)
    ensures r.Some? ==> |r.value.1| < |t|
  {
    if t != [] && t[0] == QUOTE then
      match ReadString(t[1..]) case Some(r) => Some((Some(r.0), r.1)) case None => None
    else if NULL_TEXT <= t then Some((None, t[4..]))
    else None
  }

  function ReadElements(t: Text): Option<seq<Option<Text>>>
    decreases |t|
  {
    match ReadElement(t)
    case None => None
    case Some(e) =>
      if e.1 == [CLOSE] then Some([e.0])
      else if e.1 != [] && e.1[0] == COMMA then
        match ReadElements(e.1[1..]) case Some(rest) => Some([e.0] + rest) case None => None
      else None
  }

  function ReadArray(t: Text): Option<seq<Option<Text>>> {
    if t != [] && t[0] == OPEN then ReadElements(t[1..]) else None
  }

  lemma HexReadsBack(d: int)
    requires 0 <= d < 16
    ensures HexValue(HexDigit(d)) == Some(d)
  {
  }

  lemma HexDigits(u: CodeUnit)
    ensures u == u / 0x1000 * 0x1000 + u / 0x100 % 16 * 0x100 + u / 16 % 16 * 16 + u % 16
    ensures u / 0x1000 < 16
  {
    assert u / 0x100 / 16 == u / 0x1000 && u / 16 / 16 == u / 0x100;
  }

  /** The four hex digits of a unit read back. */
  lemma DigitsReadBack(u: CodeUnit, t: Text)
    requires |t| >= 4 && t[0] == HexDigit(u / 0x1000) && t[1] == HexDigit(u / 0x100 % 16)
    requires t[2] == HexDigit(u / 16 % 16) && t[3] == HexDigit(u % 16)
    ensures ReadUnicode(t) == Some(u)
  {
    HexReadsBack(u / 0x1000);
    HexReadsBack(u / 0x100 % 16);
    HexReadsBack(u / 16 % 16);
    HexReadsBack(u % 16);
    HexDigits(u);
  }

  lemma UnicodeReadsBack(u: CodeUnit, rest: Text)
    ensures ReadUnit(UnicodeEscape(u) + rest) == Some((u, 6))
    ensures (UnicodeEscape(u) + rest)[6..] == rest
  {
    var t := UnicodeEscape(u) + rest;
    assert forall k :: 0 <= k < 4 ==> t[2..][k] == UnicodeEscape(u)[k + 2];
    DigitsReadBack(u, t[2..]);
  }

  lemma UnitReadsBack(u: CodeUnit, rest: Text)
    ensures ReadUnit(EscapeUnit(u) + rest) == Some((u, |EscapeUnit(u)|))
    ensures (EscapeUnit(u) + rest)[|EscapeUnit(u)|..] == rest
  {
    if EscapeUnit(u) == UnicodeEscape(u) { UnicodeReadsBack(u, rest); }
  }

  lemma RawReadsBack(u: CodeUnit, rest: Text)
    requires u != QUOTE && u != BACKSLASH
    ensures ReadUnit([u] + rest) == Some((u, 1)) && ([u] + rest)[1..] == rest
  {
  }

  lemma UnitThenString(u: CodeUnit, t: Text, s: Text, rest: Text)
    requires ReadString(t) == Some((s, rest))
    ensures ReadString(EscapeUnit(u) + t) == Some(([u] + s, rest))
  {
    UnitReadsBack(u, t);
    assert (EscapeUnit(u) + t)[0] == EscapeUnit(u)[0] != QUOTE;
  }

  lemma RawThenString(u: CodeUnit, t: Text, s: Text, rest: Text)
    requires u != QUOTE && u != BACKSLASH
    requires ReadString(t) == Some((s, rest))
    ensures ReadString([u] + t) == Some(([u] + s, rest))
  {
    RawReadsBack(u, t);
  }

  lemma PairThenString(u: CodeUnit, v: CodeUnit, t: Text, s: Text, rest: Text)
    requires High(u) && Low(v)
    requires ReadString(t) == Some((s, rest))
    ensures ReadString([u, v] + t) == Some(([u, v] + s, rest))
  {
    RawThenString(v, t, s, rest);
    RawThenString(u, [v] + t, [v] + s, rest);
    assert [u, v] + t == [u] + ([v] + t);
    assert [u, v] + s == [u] + ([v] + s);
  }

  predicate StartsWithPair(s: Text) { |s| > 1 && High(s[0]) && Low(s[1]) }

  lemma SplitPair(s: Text, close: Text)
    requires StartsWithPair(s)
    ensures Escape(s) + close == [s[0], s[1]] + (Escape(s[2..]) + close)
    ensures s == [s[0], s[1]] + s[2..]
  {
    Associate([s[0], s[1]], Escape(s[2..]), close);
  }

  lemma SplitUnit(s: Text, close: Text)
    requires s != [] && !StartsWithPair(s)
    ensures Escape(s) + close == EscapeUnit(s[0]) + (Escape(s[1..]) + close)
    ensures s == [s[0]] + s[1..]
  {
    Associate(EscapeUnit(s[0]), Escape(s[1..]), close);
  }

  lemma {:induction false} StringReadsBack(s: Text, rest: Text)
    ensures ReadString(Escape(s) + ([QUOTE] + rest)) == Some((s, rest))
    decreases |s|
  {
    var close := [QUOTE] + rest;
    if s == [] {
      assert Escape(s) + close == close && close[1..] == rest;
    } else if StartsWithPair(s) {
      StringReadsBack(s[2..], rest);
      PairThenString(s[0], s[1], Escape(s[2..]) + close, s[2..], rest);
      SplitPair(s, close);
    } else {
      StringReadsBack(s[1..], rest);
      UnitThenString(s[0], Escape(s[1..]) + close, s[1..], rest);
      SplitUnit(s, close);
    }
  }

  lemma ElementReadsBack(field: Option<Text>, rest: Text)
    ensures ReadElement(Element(field) + rest) == Some((field, rest))
  {
    var t := Element(field) + rest;
    match field
    case None =>
      assert t[..4] == NULL_TEXT && t[4..] == rest;
    case Some(s) =>
      assert t == [QUOTE] + (Escape(s) + ([QUOTE] + rest));
      StringReadsBack(s, rest);
  }

  lemma {:induction false} ElementsReadBack(fields: seq<Option<Text>>)
    requires fields != []
    ensures ReadElements(Elements(fields)) == Some(fields)
    decreases |fields|
  {
    if |fields| == 1 {
      ElementReadsBack(fields[0], [CLOSE]);
      assert fields == [fields[0]];
    } else {
      var rest := [COMMA] + Elements(fields[1..]);
      ElementReadsBack(fields[0], rest);
      ElementsReadBack(fields[1..]);
      assert Elements(fields) == Element(fields[0]) + rest;
      assert rest[1..] == Elements(fields[1..]);
      assert rest != [CLOSE] by { assert rest[0] == COMMA; }
      assert fields == [fields[0]] + fields[1..];
    }
  }

  /** Nothing is lost: the reader recovers every field, nulls told apart from the text "null". */
  lemma StringifyReadsBack(fields: seq<Option<Text>>)
    requires fields != []
    ensures ReadArray(Stringify(fields)) == Some(fields)
  {
    ElementsReadBack(fields);
    assert Stringify(fields)[1..] == Elements(fields);
  }

  function Ascii(s: string): Text {
    if s == "" then [] else [if s[0] as int < 0x10000 then s[0] as int else 0] + Ascii(s[1..])
  }

  lemma {:induction false} AsciiIsVerbatim(s: string)
    requires forall i :: 0 <= i < |s| ==> s[i] < '\U{80}'
    ensures |Ascii(s)| == |s| && forall i :: 0 <= i < |s| ==> Ascii(s)[i] == s[i] as int
  {
    if s != "" { AsciiIsVerbatim(s[1..]); }
  }

  /** Every short escape, character by character. */
  lemma ShortEscapes()
    ensures Escape([0x22, 0x5C, 0x08, 0x09]) == ['\\' as int, '"' as int, '\\' as int, '\\' as int,
                                                '\\' as int, 'b' as int, '\\' as int, 't' as int]
    ensures Escape([0x0A, 0x0C, 0x0D]) == ['\\' as int, 'n' as int, '\\' as int, 'f' as int, '\\' as int, 'r' as int]
  {
    var a: Text := [0x22, 0x5C, 0x08, 0x09];
    assert a[1..][1..] == [0x08, 0x09];
  }

  /** A control character without a short escape, a letter, a surrogate pair and a lone surrogate. */
  lemma OtherEscapes()
    ensures Escape([0x1F]) == ['\\' as int, 'u' as int, '0' as int, '0' as int, '1' as int, 'f' as int]
    ensures Escape([0x41, 0xD834, 0xDD1E]) == ['A' as int, 0xD834, 0xDD1E]
    ensures Escape([0xDD1E]) == ['\\' as int, 'u' as int, 'd' as int, 'd' as int, '1' as int, 'e' as int]
  {
    var a: Text := [0x41, 0xD834, 0xDD1E];
    assert a[1..] == [0xD834, 0xDD1E] && a[1..][2..] == [];
  }

  /** An array of a string, a null and an empty string: `["A",null,""]`. */
  lemma SampleArray()
    ensures Stringify([Some([0x41]), None, Some([])]) ==
            ['[' as int, '"' as int, 'A' as int, '"' as int, ',' as int, 'n' as int, 'u' as int, 'l' as int, 'l' as int,
             ',' as int, '"' as int, '"' as int, ']' as int]
  {
    var fields: seq<Option<Text>> := [Some([0x41]), None, Some([])];
    assert fields[1..][1..] == [Some([])];
    assert Elements(fields[1..]) == NULL_TEXT + [COMMA] + [QUOTE, QUOTE, CLOSE];
    assert Element(fields[0]) == [QUOTE, 0x41, QUOTE];
  }
}
