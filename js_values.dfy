/**
  The values that flow through the three views: one cell of a CSV row as
  Papa Parse delivers it with `dynamicTyping` on, and the handful of
  JavaScript built-ins the views apply to cells (truthiness, `||`,
  `toLowerCase`, `includes`, `parseFloat`, `String()` and the relational
  operators used by the sort comparator).
*/
module JsValues {

  datatype Option<T> = None | Some(value: T)

  /** One cell. `Undefined` is what reading a column that the row lacks yields. */
  datatype Value = Str(s: string) | Num(x: real) | Bool(b: bool) | Null | Undefined

  /** A parsed CSV row: column name to cell. */
  type Row = map<string, Value>

  /** `row[column]` */
  function Get(row: Row, column: string): Value
  {
    if column in row then row[column] else Undefined
  }

  /** JavaScript truthiness of a cell (there is no NaN among the cells). */
  predicate Truthy(v: Value)
  {
    match v
    case Str(s) => s != ""
    case Num(x) => x != 0.0
    case Bool(b) => b
    case Null => false
    case Undefined => false
  }

  /** `v || fallback` */
  function Or(v: Value, fallback: Value): (r: Value)
    ensures Truthy(v) ==> r == v
    ensures !Truthy(v) ==> r == fallback
  {
    if Truthy(v) then v else fallback
  }

  /** `v || fallback` is one of its operands; it is truthy when either operand
      is, and it comes out falsy only as the fallback itself (so `x || ''` is
      a truthy cell or `''`). */
  lemma OrFallback(v: Value, fallback: Value)
    ensures Or(v, fallback) == v || Or(v, fallback) == fallback
    ensures Truthy(Or(v, fallback)) <==> Truthy(v) || Truthy(fallback)
    ensures !Truthy(Or(v, fallback)) ==> Or(v, fallback) == fallback
  {
  }

  // ---------------------------------------------------------------------
  // Strings: ASCII lower-casing and String.prototype.includes

  function LowerChar(c: char): char
  {
    if 'A' <= c <= 'Z' then (c as int + 32) as char else c
  }

  /** `toLowerCase`, restricted to the ASCII letters. */
  function Lower(s: string): string
  {
    seq(|s|, i requires 0 <= i < |s| => LowerChar(s[i]))
  }

  predicate StartsWith(s: string, prefix: string)
  {
    |prefix| <= |s| && s[..|prefix|] == prefix
  }

  /** `s.includes(sub)` */
  predicate Includes(s: string, sub: string)
    decreases |s|
  {
    StartsWith(s, sub) || (|s| > 0 && Includes(s[1..], sub))
  }

  /** `Includes` holds exactly when `sub` occurs at some position of `s`. */
  lemma {:induction false} IncludesAt(s: string, sub: string)
    ensures Includes(s, sub) <==> exists i :: 0 <= i <= |s| && StartsWith(s[i..], sub)
  {
    if Includes(s, sub) {
      if !StartsWith(s, sub) {
        IncludesAt(s[1..], sub);
        var i :| 0 <= i <= |s[1..]| && StartsWith(s[1..][i..], sub);
        assert s[1..][i..] == s[i + 1..];
      } else {
        assert s[0..] == s;
      }
    } else {
      forall i | 0 <= i <= |s|
        ensures !StartsWith(s[i..], sub)
      {
        if i == 0 {
          assert s[0..] == s;
        } else {
          assert s[1..][i - 1..] == s[i..];
          IncludesAt(s[1..], sub);
        }
      }
    }
  }

  /** `text.toLowerCase().includes(filter.toLowerCase())` */
  predicate ContainsIgnoringCase(text: string, filter: string)
  {
    Includes(Lower(text), Lower(filter))
  }

  /** Every text contains the empty filter. */
  lemma ContainsEmpty(text: string)
    ensures ContainsIgnoringCase(text, "")
  {
    assert Lower("") == [];
    assert Lower(text)[..0] == [];
  }

  // ---------------------------------------------------------------------
  // Decimal digits

  function Pow10(n: nat): (r: nat)
    ensures r >= 1
  {
    if n == 0 then 1 else 10 * Pow10(n - 1)
  }

  predicate IsDigit(c: char)
  {
    '0' <= c <= '9'
  }

  function DigitValue(c: char): nat
    requires IsDigit(c)
  {
    c as int - '0' as int
  }

  function DigitChar(d: nat): (c: char)
    requires d < 10
    ensures IsDigit(c) && DigitValue(c) == d
  {
    ('0' as int + d) as char
  }

  /** The longest prefix of `s` made of decimal digits. */
  function LeadingDigits(s: string): (d: string)
    ensures |d| <= |s| && d == s[..|d|]
    ensures forall i :: 0 <= i < |d| ==> IsDigit(d[i])
    ensures |d| < |s| ==> !IsDigit(s[|d|])
  {
    if |s| > 0 && IsDigit(s[0]) then [s[0]] + LeadingDigits(s[1..]) else ""
  }

  /** The number a string of decimal digits denotes. */
  function DigitsValue(d: string): nat
    requires forall i :: 0 <= i < |d| ==> IsDigit(d[i])
  {
    if d == [] then 0 else DigitsValue(d[..|d| - 1]) * 10 + DigitValue(d[|d| - 1])
  }

  /** Decimal text of a natural number, without leading zeros. */
  function NatText(n: nat): (t: string)
    ensures |t| > 0
    ensures forall i :: 0 <= i < |t| ==> IsDigit(t[i])
  {
    if n < 10 then [DigitChar(n)] else NatText(n / 10) + [DigitChar(n % 10)]
  }

  /** Decimal text of an integer, as JavaScript's `String` writes a whole number. */
  function IntText(n: int): string
  {
    if n < 0 then "-" + NatText(-n) else NatText(n)
  }

  lemma {:induction false} NatTextValue(n: nat)
    ensures DigitsValue(NatText(n)) == n
  {
    var t := NatText(n);
    if n >= 10 {
      NatTextValue(n / 10);
      assert t[..|t| - 1] == NatText(n / 10);
    }
  }

  lemma LeadingDigitsOfDigits(d: string)
    requires forall i :: 0 <= i < |d| ==> IsDigit(d[i])
    ensures LeadingDigits(d) == d
  {
    if |d| > 0 {
      LeadingDigitsOfDigits(d[1..]);
    }
  }

  /** `String(v)` for the cells the model can render: strings, booleans, `null`,
      `undefined`, and whole numbers below 10^21 (which JavaScript writes in plain
      decimal). Fractional and huge numbers yield `None`. */
  function Text(v: Value): Option<string>
  {
    match v
    case Str(s) => Some(s)
    case Bool(b) => Some(if b then "true" else "false")
    case Null => Some("null")
    case Undefined => Some("undefined")
    case Num(x) =>
      if x == x.Floor as real && -(Pow10(21) as real) < x < Pow10(21) as real
      then Some(IntText(x.Floor)) else None
  }

  // ---------------------------------------------------------------------
  // parseFloat

  /** The outcome of `parseFloat`: NaN, a finite number, or an infinity. */
  datatype Parsed = NaN | Finite(x: real) | Infinite(negative: bool)

  /** The StrWhiteSpaceChar set that `parseFloat` skips at the front. */
  predicate IsSpace(c: char)
  {
    c == '\t' || c == '\n' || c == '\U{000B}' || c == '\U{000C}' || c == '\r' || c == ' ' ||
    c == '\U{00A0}' || c == '\U{1680}' || ('\U{2000}' <= c <= '\U{200A}') ||
    c == '\U{2028}' || c == '\U{2029}' || c == '\U{202F}' || c == '\U{205F}' ||
    c == '\U{3000}' || c == '\U{FEFF}'
  }

  /** Drops the white space at the front, and only that. */
  function TrimStart(s: string): (t: string)
    ensures |t| <= |s| && t == s[|s| - |t|..]
    ensures forall i :: 0 <= i < |s| - |t| ==> IsSpace(s[i])
    ensures |t| > 0 ==> !IsSpace(t[0])
  {
    if |s| > 0 && IsSpace(s[0]) then
      var t := TrimStart(s[1..]);
      assert forall i :: 1 <= i < |s| - |t| ==> s[i] == s[1..][i - 1];
      t
    else s
  }

  /** The exponent an optional `e`/`E` part at the front of `s` contributes; a
      malformed exponent is not part of the longest numeric prefix and counts 0. */
  function Exponent(s: string): int
  {
    if |s| >= 2 && (s[0] == 'e' || s[0] == 'E') then
      var signed := s[1] == '+' || s[1] == '-';
      var d := LeadingDigits(if signed then s[2..] else s[1..]);
      if d == "" then 0
      else if signed && s[1] == '-' then -(DigitsValue(d) as int)
      else DigitsValue(d)
    else 0
  }

  /** `parseFloat` of a string: the longest prefix of the trimmed text that is a
      StrDecimalLiteral (an optional sign, then `Infinity` or digits with an
      optional fraction and exponent), read exactly, without rounding to double
      precision. */
  function ParseDecimal(s: string): Parsed
  {
    var t := TrimStart(s);
    if |t| > 0 && (t[0] == '+' || t[0] == '-') then Signed(t[0] == '-', ParseUnsigned(t[1..]))
    else ParseUnsigned(t)
  }

  function Signed(negative: bool, p: Parsed): Parsed
  {
    if !negative then p
    else match p
      case NaN => NaN
      case Finite(x) => Finite(-x)
      case Infinite(n) => Infinite(!n)
  }

  /** StrUnsignedDecimalLiteral at the front of `u`. */
  function ParseUnsigned(u: string): Parsed
  {
    if StartsWith(u, "Infinity") then Infinite(false)
    else
      var whole := LeadingDigits(u);
      ParseFraction(whole, u[|whole|..])
  }

  /** The rest of the literal once its integer digits `whole` are read. */
  function ParseFraction(whole: string, rest: string): Parsed
    requires forall i :: 0 <= i < |whole| ==> IsDigit(whole[i])
  {
    var dotted := |rest| > 0 && rest[0] == '.';
    var frac := if dotted then LeadingDigits(rest[1..]) else "";
    var tail := if dotted then rest[1 + |frac|..] else rest;
    if |whole| + |frac| == 0 then NaN
    else Finite(Scale(DigitsValue(whole + frac), |frac|, Exponent(tail)))
  }

  /** `digits * 10^-fracDigits * 10^e` */
  function Scale(digits: nat, fracDigits: nat, e: int): real
  {
    var mantissa := digits as real / Pow10(fracDigits) as real;
    if e >= 0 then mantissa * Pow10(e) as real else mantissa / Pow10(-e) as real
  }

  /** `parseFloat(v)`: the argument is first turned into text. A number's text
      reads back as the number itself; `"true"`, `"false"`, `"null"` and
      `"undefined"` read as NaN. */
  function ParseFloat(v: Value): Parsed
  {
    match v
    case Num(x) => Finite(x)
    case Str(s) => ParseDecimal(s)
    case _ => NaN
  }

  /** `!isNaN(parseFloat(v)) && parseFloat(v) !== 0`, the matrix views' column test. */
  predicate ParsesNonZero(v: Value)
  {
    match ParseFloat(v)
    case NaN => false
    case Finite(x) => x != 0.0
    case Infinite(_) => true
  }

  /** Text that starts with neither white space nor a sign is read unsigned. */
  lemma UnsignedStart(s: string)
    requires |s| > 0 && !IsSpace(s[0]) && s[0] != '+' && s[0] != '-'
    ensures ParseDecimal(s) == ParseUnsigned(s)
  {
    assert TrimStart(s) == s;
  }

  /** Text that starts with `-` is read as the negation of the rest. */
  lemma NegativeStart(s: string)
    requires |s| > 0 && s[0] == '-'
    ensures ParseDecimal(s) == Signed(true, ParseUnsigned(s[1..]))
  {
    assert !IsSpace(s[0]);
    assert TrimStart(s) == s;
  }

  lemma NotInfinity(u: string)
    requires |u| > 0 && u[0] != 'I'
    ensures !StartsWith(u, "Infinity")
  {
    if |u| >= 8 {
      assert u[..8][0] == u[0];
      assert "Infinity"[0] == 'I';
    }
  }

  /** Text that starts with no white space, sign, digit, point or `Infinity`
      reads as NaN. */
  lemma NoDigitsIsNaN(u: string)
    requires |u| > 0 && !IsDigit(u[0]) && u[0] != '.' && u[0] != 'I'
    requires !IsSpace(u[0]) && u[0] != '+' && u[0] != '-'
    ensures ParseUnsigned(u) == NaN
    ensures ParseDecimal(u) == NaN
  {
    UnsignedStart(u);
    NotInfinity(u);
    assert LeadingDigits(u) == "";
    assert u[0..] == u;
    assert ParseFraction("", u) == NaN;
  }

  /** A run of digits and nothing after it reads as its value. */
  lemma DigitsParse(d: string)
    requires |d| > 0 && forall i :: 0 <= i < |d| ==> IsDigit(d[i])
    ensures ParseUnsigned(d) == Finite(DigitsValue(d) as real)
  {
    LeadingDigitsOfDigits(d);
    assert IsDigit(d[0]);
    NotInfinity(d);
    assert d[|d|..] == "";
    assert ParseUnsigned(d) == ParseFraction(d, "");
    WholeParse(d);
  }

  lemma WholeParse(d: string)
    requires forall i :: 0 <= i < |d| ==> IsDigit(d[i])
    requires |d| > 0
    ensures ParseFraction(d, "") == Finite(DigitsValue(d) as real)
  {
    assert d + "" == d;
    assert Exponent("") == 0;
    assert Scale(DigitsValue(d), 0, 0) == DigitsValue(d) as real;
  }

  /** Round trip: `parseFloat` reads the decimal text of any whole number back. */
  lemma IntTextParses(n: int)
    ensures ParseDecimal(IntText(n)) == Finite(n as real)
  {
    var m: nat := if n < 0 then -n else n;
    var d := NatText(m);
    NatTextValue(m);
    DigitsParse(d);
    if n < 0 {
      var t := "-" + d;
      assert t[0] == '-' && t[1..] == d;
      NegativeStart(t);
    } else {
      assert IsDigit(d[0]);
      UnsignedStart(d);
    }
  }

  /** Round trip between `String` and `parseFloat` on the numbers `Text` renders. */
  lemma TextParses(v: Value)
    requires v.Num? && Text(v).Some?
    ensures ParseDecimal(Text(v).value) == ParseFloat(v)
  {
    IntTextParses(v.x.Floor);
  }

  /** Text with no numeric prefix reads as NaN. */
  lemma ParseLettersIsNaN()
    ensures ParseDecimal("abc") == NaN
  {
    var s := "abc";
    assert s[0] == 'a';
    NoDigitsIsNaN(s);
  }

  lemma {:induction false} LeadingDigitsOfPrefix(d: string, rest: string)
    requires forall i :: 0 <= i < |d| ==> IsDigit(d[i])
    requires rest == [] || !IsDigit(rest[0])
    ensures LeadingDigits(d + rest) == d
  {
    if d == [] {
      assert d + rest == rest;
    } else {
      LeadingDigitsOfPrefix(d[1..], rest);
      assert (d + rest)[0] == d[0];
      assert (d + rest)[1..] == d[1..] + rest;
      assert [d[0]] + d[1..] == d;
    }
  }

  /** Digits followed by text that continues neither the digits, nor a
      fraction, nor an exponent read as the digits alone. */
  lemma WholeBeforeText(d: string, rest: string)
    requires forall i :: 0 <= i < |d| ==> IsDigit(d[i])
    requires |d| > 0 && |rest| > 0
    requires rest[0] != '.' && rest[0] != 'e' && rest[0] != 'E'
    ensures ParseFraction(d, rest) == Finite(DigitsValue(d) as real)
  {
    assert d + "" == d;
    assert Exponent(rest) == 0;
    assert Scale(DigitsValue(d), 0, 0) == DigitsValue(d) as real;
  }

  /** Only the numeric prefix counts: digits followed by text that does not
      continue the number read as the digits' value. */
  lemma NumericPrefix(d: string, rest: string)
    requires |d| > 0 && forall i :: 0 <= i < |d| ==> IsDigit(d[i])
    requires |rest| > 0 && !IsDigit(rest[0]) && rest[0] != '.' && rest[0] != 'e' && rest[0] != 'E'
    ensures ParseDecimal(d + rest) == Finite(DigitsValue(d) as real)
  {
    var s := d + rest;
    assert s[0] == d[0] && IsDigit(s[0]);
    UnsignedStart(s);
    NotInfinity(s);
    LeadingDigitsOfPrefix(d, rest);
    assert s[|d|..] == rest;
    assert ParseUnsigned(s) == ParseFraction(d, rest);
    WholeBeforeText(d, rest);
  }

  /** `parseFloat("12abc")` is 12. */
  lemma ParseNumericPrefix()
    ensures ParseDecimal("12abc") == Finite(12.0)
  {
    assert "12abc" == "12" + "abc";
    assert DigitsValue("12") == 12 by {
      assert "12"[..1] == "1";
    }
    NumericPrefix("12", "abc");
  }


  // ---------------------------------------------------------------------
  // The order the sort comparator's `<` and `>` induce on cells

  /** What `<` compares a cell as. Null, booleans and numbers are compared as
      the numbers ToNumber gives (null and false are 0, true is 1); strings
      are compared by their UTF-16 code units; `undefined` is put below both. */
  datatype Comparable = Missing | Numeric(x: real) | CodeUnits(units: seq<int>)

  /** The UTF-16 code units of one character: the character itself below
      U+10000, otherwise a high surrogate followed by a low surrogate. */
  function CharUnits(c: char): seq<int>
  {
    var n := c as int;
    if n < 0x1_0000 then [n]
    else [0xD800 + (n - 0x1_0000) / 0x400, 0xDC00 + (n - 0x1_0000) % 0x400]
  }

  /** The UTF-16 code units of a string. */
  function Utf16(s: string): seq<int>
  {
    if s == [] then [] else CharUnits(s[0]) + Utf16(s[1..])
  }

  function SortKey(v: Value): Comparable
  {
    match v
    case Undefined => Missing
    case Null => Numeric(0.0)
    case Bool(b) => Numeric(if b then 1.0 else 0.0)
    case Num(x) => Numeric(x)
    case Str(s) => CodeUnits(Utf16(s))
  }

  /** Lexicographic order of code-unit sequences, a proper prefix first. */
  predicate UnitsLess(a: seq<int>, b: seq<int>)
    decreases |a|
  {
    if |a| == 0 then |b| > 0
    else if |b| == 0 then false
    else if a[0] != b[0] then a[0] < b[0]
    else UnitsLess(a[1..], b[1..])
  }

  predicate KeyLess(a: Comparable, b: Comparable)
  {
    match (a, b)
    case (Numeric(x), Numeric(y)) => x < y
    case (CodeUnits(x), CodeUnits(y)) => UnitsLess(x, y)
    case (Missing, Missing) => false
    case (Missing, _) => true
    case (Numeric(_), CodeUnits(_)) => true
    case _ => false
  }

  /** `a < b` on two cells. */
  predicate Less(a: Value, b: Value)
  {
    KeyLess(SortKey(a), SortKey(b))
  }

  lemma {:induction false} UnitsLessIrreflexive(a: seq<int>)
    ensures !UnitsLess(a, a)
  {
    if |a| > 0 {
      UnitsLessIrreflexive(a[1..]);
    }
  }

  lemma {:induction false} UnitsLessTransitive(a: seq<int>, b: seq<int>, c: seq<int>)
    requires UnitsLess(a, b) && UnitsLess(b, c)
    ensures UnitsLess(a, c)
  {
    if |a| > 0 && a[0] == b[0] && b[0] == c[0] {
      UnitsLessTransitive(a[1..], b[1..], c[1..]);
    }
  }

  lemma {:induction false} UnitsLessTotal(a: seq<int>, b: seq<int>)
    requires a != b
    ensures UnitsLess(a, b) || UnitsLess(b, a)
  {
    if |a| > 0 && |b| > 0 && a[0] == b[0] {
      assert a == [a[0]] + a[1..];
      assert b == [b[0]] + b[1..];
      UnitsLessTotal(a[1..], b[1..]);
    }
  }

  /** `Less` is a strict weak order on cells: cells with the same `SortKey`
      tie, and any other two are ordered one way. */
  lemma LessIrreflexive(a: Value)
    ensures !Less(a, a)
  {
    if a.Str? {
      UnitsLessIrreflexive(Utf16(a.s));
    }
  }

  lemma LessTransitive(a: Value, b: Value, c: Value)
    requires Less(a, b) && Less(b, c)
    ensures Less(a, c)
  {
    if a.Str? && b.Str? && c.Str? {
      UnitsLessTransitive(Utf16(a.s), Utf16(b.s), Utf16(c.s));
    }
  }

  lemma LessTotal(a: Value, b: Value)
    requires SortKey(a) != SortKey(b)
    ensures Less(a, b) || Less(b, a)
  {
    if a.Str? && b.Str? {
      UnitsLessTotal(Utf16(a.s), Utf16(b.s));
    }
  }

  lemma LessAsymmetric(a: Value, b: Value)
    requires Less(a, b)
    ensures !Less(b, a)
  {
    if Less(b, a) {
      LessTransitive(a, b, a);
      LessIrreflexive(a);
    }
  }

  /** Two cells tie, neither below the other, exactly when they have the same
      `SortKey`. */
  lemma LessTies(a: Value, b: Value)
    ensures !Less(a, b) && !Less(b, a) <==> SortKey(a) == SortKey(b)
  {
    if SortKey(a) == SortKey(b) {
      LessIrreflexive(a);
    } else {
      LessTotal(a, b);
    }
  }

  /** `null` compares exactly like 0, and a boolean exactly like 0 or 1, with
      every cell. */
  lemma NullAndBooleansAreNumbers(b: bool, v: Value)
    ensures Less(Null, v) == Less(Num(0.0), v) && Less(v, Null) == Less(v, Num(0.0))
    ensures Less(Bool(b), v) == Less(Num(if b then 1.0 else 0.0), v)
    ensures Less(v, Bool(b)) == Less(v, Num(if b then 1.0 else 0.0))
  {
  }

  /** Strings compare by code units, not by code points: a character above
      U+FFFF starts with a high surrogate, so it sorts before the characters
      from U+E000 to U+FFFF. */
  lemma AstralBeforeHighPlane(c: char, d: char)
    requires c as int >= 0x1_0000 && 0xE000 <= d as int < 0x1_0000
    ensures Less(Str([c]), Str([d]))
  {
    assert Utf16([c]) == CharUnits(c) + Utf16([]);
    assert Utf16([d]) == CharUnits(d) + Utf16([]);
    assert (c as int - 0x1_0000) / 0x400 < 0x400;
  }
}
