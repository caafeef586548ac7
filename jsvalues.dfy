/**
 * The JavaScript value semantics the reconciliation code leans on: a cell of
 * a spreadsheet-derived row (a number, a string, or nothing), truthiness,
 * `String(v)`, `s.trim()`, `parseInt(s)`, `s.replace(/,/g, '')`, and the
 * relational `<` on strings.
 *
 * Numbers are integers here: the rows hold vote counts and district numbers.
 */
module JsValues {
  import opened Wrappers

  /** A cell of a row parsed from JSON. */
  datatype Value = Num(n: int) | Str(s: string) | Undefined | Null

  /** JavaScript truthiness: `0`, `''`, `undefined` and `null` are falsy. */
  predicate Truthy(v: Value) {
    match v
    case Num(n) => n != 0
    case Str(s) => s != ""
    case _ => false
  }

  predicate IsDigit(c: char) {
    '0' <= c <= '9'
  }

  predicate AllDigits(s: string) {
    forall c :: c in s ==> IsDigit(c)
  }

  function DigitChar(d: int): (c: char)
    requires 0 <= d < 10
    ensures IsDigit(c) && c as int - '0' as int == d
  {
    ('0' as int + d) as char
  }

  /** The decimal digits of `n`, without leading zeros. */
  function NatToString(n: nat): (s: string)
    ensures |s| > 0 && AllDigits(s)
  {
    if n < 10 then [DigitChar(n)]
    else NatToString(n / 10) + [DigitChar(n % 10)]
  }

  /** `String(n)` for an integer `n`. */
  function IntToString(n: int): string {
    if n < 0 then "-" + NatToString(-n) else NatToString(n)
  }

  /** `String(v)`, which is also what a template literal `${v}` and an object
      property key make of `v`. */
  function ToJsString(v: Value): (s: string)
    ensures s == "" <==> v == Str("")
  {
    match v
    case Num(n) => IntToString(n)
    case Str(s) => s
    case Undefined => "undefined"
    case Null => "null"
  }

  /** The characters `trim` and `parseInt` skip: ECMAScript's WhiteSpace
      (tab, vertical tab, form feed, space, no-break space, the byte order
      mark and the other space separators) and LineTerminator. */
  predicate IsWhitespace(c: char) {
    var n := c as int;
    || n == 0x09 || n == 0x0A || n == 0x0B || n == 0x0C || n == 0x0D
    || n == 0x20 || n == 0xA0 || n == 0x1680 || (0x2000 <= n <= 0x200A)
    || n == 0x2028 || n == 0x2029 || n == 0x202F || n == 0x205F
    || n == 0x3000 || n == 0xFEFF
  }

  predicate AllWhitespace(s: string) {
    forall c :: c in s ==> IsWhitespace(c)
  }

  /** `s.trimStart()`: `s` without its leading whitespace. */
  function TrimStart(s: string): (r: string)
    ensures |r| <= |s|
    ensures r == s[|s| - |r|..]
    ensures AllWhitespace(s[..|s| - |r|])
    ensures r == [] || !IsWhitespace(r[0])
  {
    if s != [] && IsWhitespace(s[0]) then
      var r := TrimStart(s[1..]);
      assert s[..|s| - |r|] == [s[0]] + s[1..][..|s[1..]| - |r|];
      r
    else s
  }

  /** `s.trimEnd()`: `s` without its trailing whitespace. */
  function TrimEnd(s: string): (r: string)
    ensures |r| <= |s|
    ensures r == s[..|r|]
    ensures AllWhitespace(s[|r|..])
    ensures r == [] || !IsWhitespace(r[|r| - 1])
  {
    if s != [] && IsWhitespace(s[|s| - 1]) then
      var r := TrimEnd(s[..|s| - 1]);
      assert s[|r|..] == s[..|s| - 1][|r|..] + [s[|s| - 1]];
      r
    else s
  }

  /** `s.trim()`. */
  function Trim(s: string): string {
    TrimEnd(TrimStart(s))
  }

  /** `trim` removes exactly a whitespace prefix and a whitespace suffix: the
      result is the text between them. */
  lemma TrimShape(s: string)
    ensures var r := Trim(s);
      exists i :: 0 <= i <= |s| - |r| && s[i..i + |r|] == r && AllWhitespace(s[..i]) && AllWhitespace(s[i + |r|..])
  {
    var t := TrimStart(s);
    var r := TrimEnd(t);
    var i := |s| - |t|;
    SuffixSlices(s, t, r, i);
    assert 0 <= i <= |s| - |r| && s[i..i + |r|] == r && AllWhitespace(s[..i]) && AllWhitespace(s[i + |r|..]);
  }

  /** Slicing a prefix `r` of the suffix `t == s[i..]` is slicing `s` at an
      offset of `i`. */
  lemma SuffixSlices(s: string, t: string, r: string, i: int)
    requires 0 <= i <= |s| && t == s[i..] && |r| <= |t| && r == t[..|r|]
    ensures s[i..i + |r|] == r && s[i + |r|..] == t[|r|..]
  {
  }

  /** `trim` leaves no whitespace at either end. */
  lemma TrimEnds(s: string)
    ensures var r := Trim(s);
      r == [] || (!IsWhitespace(r[0]) && !IsWhitespace(r[|r| - 1]))
  {
    var t := TrimStart(s);
    var r := TrimEnd(t);
    if r != [] {
      assert r[0] == t[0];
    }
  }

  /** Trimming twice changes nothing. */
  lemma TrimIdempotent(s: string)
    ensures Trim(Trim(s)) == Trim(s)
  {
    var r := Trim(s);
    TrimEnds(s);
    if r != [] {
      TrimStartNonBlank(r);
      assert TrimEnd(r) == r;
    }
  }

  /** The longest prefix of `s` made of decimal digits. */
  function DigitPrefix(s: string): (d: string)
    ensures |d| <= |s| && d == s[..|d|] && AllDigits(d)
    ensures |d| < |s| ==> !IsDigit(s[|d|])
  {
    if s != [] && IsDigit(s[0]) then [s[0]] + DigitPrefix(s[1..]) else []
  }

  /** The number a string of decimal digits denotes. */
  function DigitsValue(d: string): (v: int)
    requires AllDigits(d)
    ensures v >= 0
  {
    if d == [] then 0
    else
      assert IsDigit(d[|d| - 1]);
      DigitsValue(d[..|d| - 1]) * 10 + (d[|d| - 1] as int - '0' as int)
  }

  /** `parseInt(s)` with no radix, `None` standing for `NaN`: leading
      whitespace is skipped, one optional sign is read, then the longest run
      of decimal digits; with no digit the result is `NaN`. */
  function ParseInt(s: string): Option<int> {
    ParseSigned(TrimStart(s))
  }

  /** `parseInt` once the leading whitespace is gone. */
  function ParseSigned(t: string): Option<int> {
    var negative := t != [] && t[0] == '-';
    var u := if t != [] && (t[0] == '-' || t[0] == '+') then t[1..] else t;
    var d := DigitPrefix(u);
    if d == [] then None
    else Some(if negative then -DigitsValue(d) else DigitsValue(d))
  }

  /** `Number(s)` for a string, restricted to integers: surrounding
      whitespace is ignored, the blank string is 0, one sign and a run of
      decimal digits is that integer, and anything else is `NaN` (`None`). */
  function StringToInteger(s: string): Option<int> {
    var t := Trim(s);
    if t == [] then Some(0)
    else
      var u := if t[0] == '-' || t[0] == '+' then t[1..] else t;
      if u != [] && AllDigits(u) then
        Some(if t[0] == '-' then -DigitsValue(u) else DigitsValue(u))
      else None
  }

  /** `Number(v) || 0`: the number `v` denotes, with `NaN` read as 0. */
  function NumberOrZero(v: Value): int {
    match v
    case Num(n) => n
    case Str(s) => StringToInteger(s).GetOr(0)
    case Undefined => 0
    case Null => 0
  }

  /** `s.replace(/,/g, '')`. */
  function RemoveCommas(s: string): (r: string)
    ensures ',' !in r
    ensures forall c :: c in r ==> c in s
  {
    if s == [] then []
    else RemoveCommas(s[..|s| - 1]) + (if s[|s| - 1] == ',' then [] else [s[|s| - 1]])
  }

  lemma {:induction false} RemoveCommasConcat(a: string, b: string)
    ensures RemoveCommas(a + b) == RemoveCommas(a) + RemoveCommas(b)
    decreases |b|
  {
    if b == [] {
      assert a + b == a;
    } else {
      var b' := b[..|b| - 1];
      assert (a + b)[..|a + b| - 1] == a + b';
      RemoveCommasConcat(a, b');
    }
  }

  lemma {:induction false} RemoveCommasNone(s: string)
    requires ',' !in s
    ensures RemoveCommas(s) == s
  {
    if s != [] {
      RemoveCommasNone(s[..|s| - 1]);
    }
  }

  /** Whitespace before a non-blank text is all `TrimStart` removes. */
  lemma {:induction false} TrimStartSkips(ws: string, t: string)
    requires AllWhitespace(ws)
    requires t == [] || !IsWhitespace(t[0])
    ensures TrimStart(ws + t) == t
    decreases |ws|
  {
    if ws != [] {
      assert (ws + t)[1..] == ws[1..] + t;
      TrimStartSkips(ws[1..], t);
    } else {
      assert ws + t == t;
    }
  }

  lemma {:induction false} DigitPrefixOfDigits(d: string, rest: string)
    requires AllDigits(d)
    requires rest == [] || !IsDigit(rest[0])
    ensures DigitPrefix(d + rest) == d
    decreases |d|
  {
    if d != [] {
      assert (d + rest)[1..] == d[1..] + rest;
      DigitPrefixOfDigits(d[1..], rest);
    } else {
      assert d + rest == rest;
    }
  }

  lemma DigitPrefixAll(d: string)
    requires AllDigits(d)
    ensures DigitPrefix(d) == d
  {
    DigitPrefixOfDigits(d, "");
    assert d + "" == d;
  }

  /** `parseInt` reads back a run of digits, whatever whitespace precedes it
      and whatever non-digit text follows. */
  lemma ParseIntOfDigits(ws: string, d: string, rest: string)
    requires AllWhitespace(ws) && AllDigits(d) && d != []
    requires rest == [] || !IsDigit(rest[0])
    ensures ParseInt(ws + d + rest) == Some(DigitsValue(d))
  {
    var u := d + rest;
    DigitPrefixOfDigits(d, rest);
    assert u[0] == d[0] && IsDigit(d[0]);
    assert ws + d + rest == ws + u;
    TrimStartSkips(ws, u);
    UnsignedDigits(u, d);
  }

  lemma UnsignedDigits(u: string, d: string)
    requires AllDigits(d) && d != [] && DigitPrefix(u) == d
    requires u != [] && IsDigit(u[0])
    ensures ParseSigned(u) == Some(DigitsValue(d))
  {
  }

  /** Text that starts with a non-blank character has nothing to trim. */
  lemma TrimStartNonBlank(t: string)
    requires t != [] && !IsWhitespace(t[0])
    ensures TrimStart(t) == t
  {
  }

  /** A minus sign and a run of digits read as the negated value. */
  lemma ParseIntNegated(d: string)
    requires AllDigits(d) && d != []
    ensures ParseInt("-" + d) == Some(-DigitsValue(d))
  {
    DigitPrefixAll(d);
    var t := "-" + d;
    assert t == ['-'] + d;
    TrimStartNonBlank(t);
    NegatedSigned(d, d);
  }

  lemma NegatedSigned(u: string, d: string)
    requires AllDigits(d) && d != [] && DigitPrefix(u) == d
    ensures ParseSigned(['-'] + u) == Some(-DigitsValue(d))
  {
    assert (['-'] + u)[1..] == u;
  }

  /** Text without a digit is `NaN` to `parseInt`. */
  lemma ParseIntNoDigits(s: string)
    requires forall c :: c in s ==> !IsDigit(c)
    ensures ParseInt(s) == None
  {
    var t := TrimStart(s);
    assert t == s[|s| - |t|..];
    var u := if t != [] && (t[0] == '-' || t[0] == '+') then t[1..] else t;
    if u != [] {
      assert u[0] in t;
      assert !IsDigit(u[0]);
    }
    assert DigitPrefix(u) == [];
  }

  /** The digits of `n` denote `n`. */
  lemma {:induction false} NatToStringValue(n: nat)
    ensures DigitsValue(NatToString(n)) == n
  {
    if n >= 10 {
      NatToStringValue(n / 10);
      var s := NatToString(n);
      assert s[..|s| - 1] == NatToString(n / 10);
    }
  }

  /** `parseInt(String(n)) === n` for every integer `n`. */
  lemma ParseIntOfIntToString(n: int)
    ensures ParseInt(IntToString(n)) == Some(n)
  {
    if n < 0 {
      ParseIntOfNegative(n);
    } else {
      ParseIntOfNatToString(n);
    }
  }

  lemma ParseIntOfNatToString(n: nat)
    ensures ParseInt(IntToString(n)) == Some(n)
  {
    var d := NatToString(n);
    NatToStringValue(n);
    DigitPrefixAll(d);
    assert IsDigit(d[0]);
    TrimStartNonBlank(d);
    UnsignedDigits(d, d);
  }

  lemma ParseIntOfNegative(n: int)
    requires n < 0
    ensures ParseInt(IntToString(n)) == Some(n)
  {
    var d := NatToString(-n);
    NatToStringValue(-n);
    assert DigitsValue(d) == -n;
    ParseIntNegated(d);
    assert ParseInt("-" + d) == Some(n);
    assert IntToString(n) == "-" + d;
  }

  /** `String(n)` is injective on integers. */
  lemma IntToStringInjective(m: int, n: int)
    requires IntToString(m) == IntToString(n)
    ensures m == n
  {
    ParseIntOfIntToString(m);
    ParseIntOfIntToString(n);
  }

  /** The three digits of `m < 1000`, zero-padded. */
  function Pad3(m: nat): (s: string)
    requires m < 1000
    ensures |s| == 3 && AllDigits(s)
  {
    [DigitChar(m / 100), DigitChar(m / 10 % 10), DigitChar(m % 10)]
  }

  /** `n` written with a comma between groups of three digits, as the
      spreadsheet exports and `toLocaleString` render vote counts
      ("1,234,567"). */
  function GroupedNat(n: nat): (s: string)
    ensures |s| > 0 && IsDigit(s[0])
  {
    if n < 1000 then NatToString(n)
    else GroupedNat(n / 1000) + "," + Pad3(n % 1000)
  }

  lemma Pad3Value(m: nat)
    requires m < 1000
    ensures DigitsValue(Pad3(m)) == m
  {
    var x, y, z := DigitChar(m / 100), DigitChar(m / 10 % 10), DigitChar(m % 10);
    var s1: string := [x];
    var s2 := s1 + [y];
    assert s2 + [z] == Pad3(m);
    assert DigitsValue(s1) == m / 100 by {
      assert s1[..0] == [];
    }
    AppendDigit(s1, y);
    assert DigitsValue(s2) == m / 100 * 10 + m / 10 % 10;
    AppendDigit(s2, z);
    assert m == m / 100 * 100 + m / 10 % 10 * 10 + m % 10;
  }

  function Grouped(n: int): string {
    if n < 0 then "-" + GroupedNat(-n) else GroupedNat(n)
  }

  /** Appending one digit multiplies the value by ten and adds the digit. */
  lemma AppendDigit(a: string, c: char)
    requires AllDigits(a) && IsDigit(c)
    ensures AllDigits(a + [c])
    ensures DigitsValue(a + [c]) == DigitsValue(a) * 10 + (c as int - '0' as int)
  {
    assert (a + [c])[..|a|] == a;
  }

  lemma AppendThreeDigits(a: string, b: string)
    requires AllDigits(a) && |b| == 3 && AllDigits(b)
    ensures AllDigits(a + b)
    ensures DigitsValue(a + b) == DigitsValue(a) * 1000 + DigitsValue(b)
  {
    var x, y, z := b[0], b[1], b[2];
    var a1 := a + [x];
    var a2 := a1 + [y];
    var b1: string := [x];
    var b2 := b1 + [y];
    assert a2 + [z] == a + b;
    assert b2 + [z] == b;
    AppendDigit(a, x);
    AppendDigit(a1, y);
    AppendDigit(a2, z);
    assert DigitsValue(b1) == x as int - '0' as int by {
      assert b1[..0] == [];
    }
    AppendDigit(b1, y);
    AppendDigit(b2, z);
  }

  /** Removing the separators from the grouped form leaves the digits of `n`. */
  lemma {:induction false} GroupedNatDigits(n: nat)
    ensures AllDigits(RemoveCommas(GroupedNat(n)))
    ensures RemoveCommas(GroupedNat(n)) != []
    ensures DigitsValue(RemoveCommas(GroupedNat(n))) == n
  {
    if n < 1000 {
      RemoveCommasNone(NatToString(n));
      NatToStringValue(n);
    } else {
      GroupedNatDigits(n / 1000);
      var g, p := GroupedNat(n / 1000), Pad3(n % 1000);
      assert GroupedNat(n) == g + "," + p;
      RemoveSeparator(g, p);
      AppendThreeDigits(RemoveCommas(g), p);
      Pad3Value(n % 1000);
    }
  }

  lemma RemoveSeparator(g: string, p: string)
    requires AllDigits(p)
    ensures RemoveCommas(g + "," + p) == RemoveCommas(g) + p
  {
    var gc := g + ",";
    assert ',' !in p by {
      assert !IsDigit(',');
    }
    RemoveCommasNone(p);
    RemoveCommasConcat(gc, p);
    assert RemoveCommas(gc) == RemoveCommas(g) by {
      assert gc[..|gc| - 1] == g;
    }
  }


  /** JavaScript's `a < b` on strings: the first differing character decides,
      and a proper prefix is smaller. Characters compare by code point, which
      agrees with JavaScript's UTF-16 code-unit order on text within the Basic
      Multilingual Plane, Thai included. */
  predicate LexLess(a: string, b: string) {
    && |b| > 0
    && (|a| == 0 || a[0] < b[0] || (a[0] == b[0] && LexLess(a[1..], b[1..])))
  }

  lemma {:induction false} LexLessIrreflexive(a: string)
    ensures !LexLess(a, a)
  {
    if |a| > 0 {
      LexLessIrreflexive(a[1..]);
    }
  }

  lemma {:induction false} LexLessTransitive(a: string, b: string, c: string)
    requires LexLess(a, b) && LexLess(b, c)
    ensures LexLess(a, c)
  {
    if |a| > 0 && a[0] == b[0] && b[0] == c[0] {
      LexLessTransitive(a[1..], b[1..], c[1..]);
    }
  }

  /** Of two different strings exactly one is smaller. */
  lemma {:induction false} LexLessTrichotomy(a: string, b: string)
    ensures a == b || LexLess(a, b) || LexLess(b, a)
    ensures !(LexLess(a, b) && LexLess(b, a))
  {
    if |a| > 0 && |b| > 0 && a[0] == b[0] {
      LexLessTrichotomy(a[1..], b[1..]);
      if a[1..] == b[1..] {
        assert a == [a[0]] + a[1..] && b == [b[0]] + b[1..];
      }
    }
  }
}
