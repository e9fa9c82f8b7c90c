/** The slice of JavaScript's built-in number and string behaviour that the
    application code relies on: `parseInt`, `Number(...)`, `String(n)`,
    `trim`, `split`, `startsWith`, `includes`, `replace`, `charCodeAt`, and
    the ToInt32 conversion behind `| 0`. */
module Js {

  /** A JavaScript number, restricted to the values the application can
      produce from the strings it parses: an integer or NaN. */
  datatype Num = NaN | Int(v: int)

  const TWO_32: int := 0x1_0000_0000
  const TWO_31: int := 0x8000_0000

  // ---------------------------------------------------------------------
  // Characters

  predicate IsDigit(c: char) { '0' <= c <= '9' }

  function DigitValue(c: char): (d: nat)
    requires IsDigit(c)
    ensures d < 10
  {
    c as int - '0' as int
  }

  function DigitChar(d: nat): (c: char)
    requires d < 10
    ensures IsDigit(c) && DigitValue(c) == d
  {
    ('0' as int + d) as char
  }

  /** A line terminator (ECMA-262 section 12.3): what `.` does not match and
      what `^`/`$` see as a line boundary under the `m` flag. */
  predicate IsLineTerminator(c: char) {
    c == '\n' || c == '\r' || c == '\U{2028}' || c == '\U{2029}'
  }

  /** White space or a line terminator (ECMA-262 sections 12.2 and 12.3):
      the characters `trim` removes, `\s` matches, and `parseInt` and
      `Number` skip. */
  predicate IsSpace(c: char) {
    || IsLineTerminator(c)
    || c == '\t' || c == '\U{000B}' || c == '\U{000C}' || c == ' '
    || c == '\U{00A0}' || c == '\U{1680}' || ('\U{2000}' <= c <= '\U{200A}')
    || c == '\U{202F}' || c == '\U{205F}' || c == '\U{3000}' || c == '\U{FEFF}'
  }

  /** ASCII lower-casing, the stand-in for the store's case folding. */
  function LowerChar(c: char): (r: char)
    ensures 'A' <= c <= 'Z' ==> r as int == c as int + 32
    ensures !('A' <= c <= 'Z') ==> r == c
  {
    if 'A' <= c <= 'Z' then (c as int + 32) as char else c
  }

  function Lower(s: string): (r: string)
    ensures |r| == |s|
    ensures forall i :: 0 <= i < |s| ==> r[i] == LowerChar(s[i])
  {
    if s == [] then [] else [LowerChar(s[0])] + Lower(s[1..])
  }

  // ---------------------------------------------------------------------
  // Searching

  predicate StartsWith(s: string, prefix: string) {
    |prefix| <= |s| && s[..|prefix|] == prefix
  }

  function IndexOfFrom(s: string, sub: string, from: nat): (r: int)
    requires from <= |s|
    ensures r == -1 || from <= r <= |s| - |sub|
    ensures r >= 0 ==> StartsWith(s[r..], sub)
    ensures r >= 0 ==> forall j :: from <= j < r ==> !StartsWith(s[j..], sub)
    ensures r == -1 ==> forall j :: from <= j <= |s| ==> !StartsWith(s[j..], sub)
    decreases |s| - from
  {
    if from + |sub| > |s| then -1
    else if StartsWith(s[from..], sub) then from
    else IndexOfFrom(s, sub, from + 1)
  }

  /** `s.indexOf(sub)`: the first position where `sub` occurs, or -1. */
  function IndexOf(s: string, sub: string): (r: int)
    ensures r == -1 || 0 <= r <= |s| - |sub|
    ensures r >= 0 ==> StartsWith(s[r..], sub)
    ensures r >= 0 ==> forall j :: 0 <= j < r ==> !StartsWith(s[j..], sub)
    ensures r == -1 ==> forall j :: 0 <= j <= |s| ==> !StartsWith(s[j..], sub)
  {
    IndexOfFrom(s, sub, 0)
  }

  /** `s.includes(sub)`. */
  predicate Includes(s: string, sub: string) {
    IndexOf(s, sub) >= 0
  }

  /** `includes` with a one-character argument is character membership. */
  lemma IncludesChar(s: string, c: char)
    ensures Includes(s, [c]) <==> c in s
  {
    if c in s {
      var i :| 0 <= i < |s| && s[i] == c;
      assert StartsWith(s[i..], [c]);
    }
    if Includes(s, [c]) {
      var r := IndexOf(s, [c]);
      assert s[r..][..1] == [c];
      assert s[r] in s;
    }
  }

  /** An occurrence of a longer string is an occurrence of its first character. */
  lemma IncludesFirstChar(s: string, sub: string)
    requires sub != [] && Includes(s, sub)
    ensures sub[0] in s
  {
    var r := IndexOf(s, sub);
    assert s[r] == s[r..][..|sub|][0] == sub[0];
  }

  /** `s.replace(pattern, replacement)` with a string pattern: only the first
      occurrence is replaced (the replacements used here hold no `$`). */
  function ReplaceFirst(s: string, pattern: string, replacement: string): (r: string)
  {
    var i := IndexOf(s, pattern);
    if i < 0 then s else s[..i] + replacement + s[i + |pattern|..]
  }

  /** Removing the first occurrence of a character leaves the rest in order. */
  lemma ReplaceFirstCharDeletes(s: string, c: char)
    ensures c !in s ==> ReplaceFirst(s, [c], "") == s
    ensures c in s ==> exists i :: 0 <= i < |s| && s[i] == c && c !in s[..i] &&
                                   ReplaceFirst(s, [c], "") == s[..i] + s[i + 1..]
  {
    IncludesChar(s, c);
    if c in s {
      var i := IndexOf(s, [c]);
      assert s[i] == c by {
        assert s[i..][..1] == [c];
      }
      assert c !in s[..i] by {
        forall j | 0 <= j < i ensures s[..i][j] != c {
          assert !StartsWith(s[j..], [c]);
          assert s[j..][..1] == [s[j]];
        }
      }
      assert ReplaceFirst(s, [c], "") == s[..i] + s[i + 1..];
    }
  }

  // ---------------------------------------------------------------------
  // Splitting and trimming

  /** `s.split(sep)` with a one-character separator; the empty string splits
      into one empty piece, as in JavaScript. */
  function Split(s: string, sep: char): (pieces: seq<string>)
    ensures |pieces| >= 1
    ensures forall k :: 0 <= k < |pieces| ==> sep !in pieces[k]
    decreases |s|
  {
    if sep !in s then [s]
    else
      var i := FirstIndex(s, sep);
      [s[..i]] + Split(s[i + 1..], sep)
  }

  /** The position of the first `c` in `s`. */
  function FirstIndex(s: string, c: char): (i: nat)
    requires c in s
    ensures i < |s| && s[i] == c && c !in s[..i]
  {
    if s[0] == c then 0 else
      assert c in s[1..] by { var j :| 0 <= j < |s| && s[j] == c; assert s[1..][j - 1] == c; }
      1 + FirstIndex(s[1..], c)
  }

  function Join(pieces: seq<string>, sep: char): string
    requires |pieces| >= 1
  {
    if |pieces| == 1 then pieces[0] else pieces[0] + [sep] + Join(pieces[1..], sep)
  }

  /** Splitting loses nothing: joining the pieces back gives the input. */
  lemma {:induction false} SplitJoin(s: string, sep: char)
    ensures Join(Split(s, sep), sep) == s
    decreases |s|
  {
    if sep in s {
      var i := FirstIndex(s, sep);
      SplitJoin(s[i + 1..], sep);
      assert s == s[..i] + [sep] + s[i + 1..];
    }
  }

  /** Splitting a separator-free string yields the string alone. */
  lemma SplitJoinInverse(pieces: seq<string>, sep: char)
    requires |pieces| >= 1
    requires forall k :: 0 <= k < |pieces| ==> sep !in pieces[k]
    ensures Split(Join(pieces, sep), sep) == pieces
    decreases |pieces|
  {
    if |pieces| > 1 {
      var s := Join(pieces, sep);
      var p := pieces[0];
      assert s == p + ([sep] + Join(pieces[1..], sep));
      assert s[|p|] == sep;
      assert s[..|p|] == p;
      assert FirstIndex(s, sep) == |p|;
      assert s[|p| + 1..] == Join(pieces[1..], sep);
      SplitJoinInverse(pieces[1..], sep);
    }
  }

  /** A suffix of `s` that does not start with white space. */
  function TrimStart(s: string): (r: string)
    ensures |r| <= |s| && r == s[|s| - |r|..]
    ensures r == [] || !IsSpace(r[0])
  {
    if s != [] && IsSpace(s[0]) then TrimStart(s[1..]) else s
  }

  /** `trimStart` removes white space only. */
  lemma {:induction false} TrimStartSpaces(s: string)
    ensures forall i :: 0 <= i < |s| - |TrimStart(s)| ==> IsSpace(s[i])
    decreases |s|
  {
    if s != [] && IsSpace(s[0]) {
      TrimStartSpaces(s[1..]);
      forall i | 0 < i < |s| - |TrimStart(s)| ensures IsSpace(s[i]) {
        assert s[i] == s[1..][i - 1];
      }
    }
  }

  /** A prefix of `s` that does not end with white space. */
  function TrimEnd(s: string): (r: string)
    ensures |r| <= |s| && r == s[..|r|]
    ensures r == [] || !IsSpace(r[|r| - 1])
  {
    if s != [] && IsSpace(s[|s| - 1]) then TrimEnd(s[..|s| - 1]) else s
  }

  /** `trimEnd` removes white space only. */
  lemma {:induction false} TrimEndSpaces(s: string)
    ensures forall i :: |TrimEnd(s)| <= i < |s| ==> IsSpace(s[i])
    decreases |s|
  {
    if s != [] && IsSpace(s[|s| - 1]) {
      TrimEndSpaces(s[..|s| - 1]);
      forall i | |TrimEnd(s)| <= i < |s| - 1 ensures IsSpace(s[i]) {
        assert s[i] == s[..|s| - 1][i];
      }
    }
  }

  /** `s.trim()`: an infix of `s` that neither starts nor ends with white
      space; `TrimSurroundings` shows that only white space is removed. */
  function Trim(s: string): (r: string)
    ensures r == [] || (!IsSpace(r[0]) && !IsSpace(r[|r| - 1]))
    ensures TrimOffset(s) + |r| <= |s| && r == s[TrimOffset(s)..TrimOffset(s) + |r|]
  {
    var t := TrimStart(s);
    var r := TrimEnd(t);
    var a := |s| - |t|;
    assert t == s[a..] && r == t[..|r|];
    assert t[..|r|] == s[a..a + |r|];
    r
  }

  /** What `trim` removes on either side is white space. */
  lemma TrimSurroundings(s: string)
    ensures forall i :: 0 <= i < TrimOffset(s) ==> IsSpace(s[i])
    ensures forall i :: TrimOffset(s) + |Trim(s)| <= i < |s| ==> IsSpace(s[i])
  {
    var t := TrimStart(s);
    var a := |s| - |t|;
    TrimStartSpaces(s);
    TrimEndSpaces(t);
    forall i | a + |Trim(s)| <= i < |s| ensures IsSpace(s[i]) {
      assert s[i] == t[i - a];
    }
  }

  /** How many leading white-space characters `trim` removes. */
  function TrimOffset(s: string): nat {
    |s| - |TrimStart(s)|
  }

  /** A string that neither starts nor ends with white space trims to itself. */
  lemma TrimNoSpace(s: string)
    requires s == [] || (!IsSpace(s[0]) && !IsSpace(s[|s| - 1]))
    ensures Trim(s) == s
  {
  }

  /** A string made only of white space trims to the empty string. */
  lemma TrimAllSpace(s: string)
    requires forall i :: 0 <= i < |s| ==> IsSpace(s[i])
    ensures Trim(s) == []
  {
    var t := TrimStart(s);
    assert t == [];
  }

  // ---------------------------------------------------------------------
  // Numbers and their decimal text

  predicate AllDigits(s: string) {
    forall i :: 0 <= i < |s| ==> IsDigit(s[i])
  }

  function DigitsValue(s: string): nat
    requires AllDigits(s)
  {
    if s == [] then 0 else 10 * DigitsValue(s[..|s| - 1]) + DigitValue(s[|s| - 1])
  }

  /** The longest prefix of `s` made of decimal digits. */
  function DigitPrefix(s: string): (d: string)
    ensures |d| <= |s|
  {
    if s != [] && IsDigit(s[0]) then [s[0]] + DigitPrefix(s[1..]) else []
  }

  /** The digit prefix is the longest prefix made of digits. */
  lemma {:induction false} DigitPrefixLongest(s: string)
    ensures StartsWith(s, DigitPrefix(s)) && AllDigits(DigitPrefix(s))
    ensures |DigitPrefix(s)| == |s| || !IsDigit(s[|DigitPrefix(s)|])
    decreases |s|
  {
    if s != [] && IsDigit(s[0]) {
      DigitPrefixLongest(s[1..]);
      var d := DigitPrefix(s);
      assert d == [s[0]] + DigitPrefix(s[1..]);
      assert s == [s[0]] + s[1..];
      forall i | 0 < i < |d| ensures IsDigit(d[i]) {
        assert d[i] == DigitPrefix(s[1..])[i - 1];
      }
      assert s[..|d|] == [s[0]] + s[1..][..|d| - 1];
      if |d| < |s| {
        assert s[|d|] == s[1..][|d| - 1];
      }
    }
  }

  /** `String(n)` for a natural number: its decimal digits, no leading zeros. */
  function NatToString(n: nat): (s: string)
    ensures s != [] && AllDigits(s)
    ensures |s| > 1 ==> s[0] != '0'
  {
    if n < 10 then [DigitChar(n)] else NatToString(n / 10) + [DigitChar(n % 10)]
  }

  /** `String(n)` for any integer: a minus sign exactly for a negative
      number, then its digits. */
  function IntToString(n: int): (s: string)
    ensures s != [] && (s[0] == '-' <==> n < 0)
    ensures n >= 0 ==> AllDigits(s)
    ensures n < 0 ==> |s| >= 2 && AllDigits(s[1..])
  {
    if n < 0 then "-" + NatToString(-n) else NatToString(n)
  }

  /** `String(x)` (or a template literal) for a number. */
  function NumToString(x: Num): string {
    match x
    case NaN => "NaN"
    case Int(v) => IntToString(v)
  }

  /** Reading back the digits written by `String(n)` gives `n`. */
  lemma {:induction false} NatToStringValue(n: nat)
    ensures DigitsValue(NatToString(n)) == n
  {
    if n >= 10 {
      NatToStringValue(n / 10);
      var s := NatToString(n);
      assert s[..|s| - 1] == NatToString(n / 10);
    }
  }

  /** `parseInt(s)` / `parseInt(s, 10)` (ECMA-262 section 19.2.5) on decimal
      input: leading white space skipped, an optional sign, then the longest
      run of digits; NaN when there is no digit. A `0x` prefix (recognised only
      without radix 10) is not modelled. */
  function ParseInt(s: string): (r: Num)
    ensures r.NaN? <==> (var t := SignStripped(TrimStart(s)); t == [] || !IsDigit(t[0]))
    ensures r.Int? && r.v < 0 ==> TrimStart(s) != [] && TrimStart(s)[0] == '-'
  {
    var t := TrimStart(s);
    var digits := DigitPrefix(SignStripped(t));
    DigitPrefixLongest(SignStripped(t));
    if digits == [] then NaN
    else if t != [] && t[0] == '-' then Int(-(DigitsValue(digits) as int))
    else Int(DigitsValue(digits))
  }

  function SignStripped(t: string): string {
    if t != [] && (t[0] == '-' || t[0] == '+') then t[1..] else t
  }

  /** Text that starts with neither white space, a sign nor a digit parses as
      NaN (so `parseInt("=30")` is NaN). */
  lemma ParseIntNaN(s: string)
    requires s != [] && !IsSpace(s[0]) && !IsDigit(s[0]) && s[0] != '-' && s[0] != '+'
    ensures ParseInt(s) == NaN
  {
  }

  lemma DigitPrefixAll(s: string)
    requires AllDigits(s)
    ensures DigitPrefix(s) == s
  {
    if s != [] {
      DigitPrefixAll(s[1..]);
    }
  }

  /** `parseInt` reads a run of digits as its value. */
  lemma ParseIntDigits(d: string)
    requires d != [] && AllDigits(d)
    ensures ParseInt(d) == Int(DigitsValue(d))
  {
    assert IsDigit(d[0]);
    assert TrimStart(d) == d;
    assert SignStripped(d) == d;
    DigitPrefixAll(d);
  }

  /** `parseInt` reads a minus sign and a run of digits as the negated value. */
  lemma ParseIntNegativeDigits(d: string)
    requires d != [] && AllDigits(d)
    ensures ParseInt("-" + d) == Int(-(DigitsValue(d) as int))
  {
    var m := "-" + d;
    assert m[0] == '-' && m[1..] == d;
    assert TrimStart(m) == m;
    assert SignStripped(m) == d;
    DigitPrefixAll(d);
  }

  /** `Number` reads a run of digits as its value. */
  lemma NumberDigits(d: string)
    requires d != [] && AllDigits(d)
    ensures Number(d) == Int(DigitsValue(d))
  {
    assert IsDigit(d[0]) && IsDigit(d[|d| - 1]);
    TrimNoSpace(d);
    assert d[0] != '-' && d[0] != '+';
    assert SignStripped(d) == d;
  }

  /** `parseInt(String(n))` is `n`: the client's integer round-trips through
      the query string. */
  lemma ParseIntToString(n: int)
    ensures ParseInt(IntToString(n)) == Int(n)
  {
    var m: nat := if n < 0 then -n else n;
    var d := NatToString(m);
    if n < 0 { ParseIntNegativeDigits(d); } else { ParseIntDigits(d); }
    NatToStringValue(m);
    assert IntToString(n) == if n < 0 then "-" + d else d;
  }

  /** `Number(s)` for a string (ECMA-262 section 7.1.4.1.1), restricted to
      decimal integers: surrounding white space is ignored, the empty string is
      0, an optional sign may precede one or more digits; anything else
      (fractions, exponents, `Infinity`, hexadecimal) is read as NaN here. */
  function Number(s: string): (r: Num)
    ensures Trim(s) == [] ==> r == Int(0)
    ensures r.Int? && Trim(s) != [] ==> ParseInt(s) == r
  {
    var t := Trim(s);
    if t == [] then Int(0)
    else
      var body := SignStripped(t);
      if body == [] || !AllDigits(body) then NaN
      else
        SignedDigitsParse(s, t, body);
        if t[0] == '-' then Int(-(DigitsValue(body) as int))
        else Int(DigitsValue(body))
  }

  /** `parseInt` stops at the first character that is not a digit. */
  lemma {:induction false} DigitPrefixStops(d: string, rest: string)
    requires AllDigits(d) && (rest == [] || !IsDigit(rest[0]))
    ensures DigitPrefix(d + rest) == d
    decreases |d|
  {
    if d == [] {
      assert d + rest == rest;
    } else {
      DigitPrefixStops(d[1..], rest);
      assert (d + rest)[1..] == d[1..] + rest;
    }
  }

  /** A text is its `trimEnd` followed by white space (or nothing). */
  lemma TrimEndThenSpace(u: string) returns (rest: string)
    ensures u == TrimEnd(u) + rest
    ensures rest == [] || IsSpace(rest[0])
  {
    TrimEndSpaces(u);
    rest := u[|TrimEnd(u)|..];
  }

  /** A trimmed text that is a sign and digits reads under `parseInt` as
      that signed value: the white space after it stops the digits. */
  lemma SignedDigitsParse(s: string, t: string, b: string)
    requires t == Trim(s) && b == SignStripped(t) && t != [] && b != [] && AllDigits(b)
    ensures ParseInt(s) == if t[0] == '-' then Int(-(DigitsValue(b) as int)) else Int(DigitsValue(b))
  {
    SignedDigitsFound(s, t, b);
    ParseIntOfDigits(s, b);
  }

  /** The digits `parseInt` finds in such a text are its trimmed digits. */
  lemma SignedDigitsFound(s: string, t: string, b: string)
    requires t == Trim(s) && b == SignStripped(t) && t != [] && AllDigits(b)
    ensures DigitPrefix(SignStripped(TrimStart(s))) == b
    ensures TrimStart(s) != [] && TrimStart(s)[0] == t[0]
  {
    var u := TrimStart(s);
    TrimIsTrimEnd(s);
    var rest := TrimEndThenSpace(u);
    SignStrippedAppend(t, rest, u);
    DigitsThenSpace(b, rest);
  }

  /** Trimming both ends trims the start, then the end. */
  lemma TrimIsTrimEnd(s: string)
    ensures Trim(s) == TrimEnd(TrimStart(s))
  {
  }

  /** White space after the digits ends the digit prefix. */
  lemma DigitsThenSpace(b: string, rest: string)
    requires AllDigits(b) && (rest == [] || IsSpace(rest[0]))
    ensures DigitPrefix(b + rest) == b
  {
    DigitPrefixStops(b, rest);
  }

  /** `parseInt` in terms of the digits it finds after the sign. */
  lemma ParseIntOfDigits(s: string, d: string)
    requires DigitPrefix(SignStripped(TrimStart(s))) == d && d != [] && AllDigits(d)
    ensures TrimStart(s) != []
    ensures ParseInt(s) == if TrimStart(s)[0] == '-' then Int(-(DigitsValue(d) as int)) else Int(DigitsValue(d))
  {
    DigitPrefixLongest(SignStripped(TrimStart(s)));
  }

  lemma SignStrippedAppend(t: string, rest: string, u: string)
    requires t != [] && u == t + rest
    ensures SignStripped(u) == SignStripped(t) + rest && u[0] == t[0]
  {
    if t[0] == '-' || t[0] == '+' {
      assert u[1..] == t[1..] + rest;
    }
  }

  /** `Number(String(n))` is `n` for every natural number. */
  lemma NumberNatToString(n: nat)
    ensures Number(NatToString(n)) == Int(n)
  {
    NumberDigits(NatToString(n));
    NatToStringValue(n);
  }

  lemma NumberEmpty()
    ensures Number("") == Int(0)
  {
  }

  /** Text holding a character that is neither white space, a sign nor a digit
      is NaN under `Number` (so a `min-max` part such as `"ab"` is NaN). */
  lemma NumberNaN(s: string, i: nat)
    requires i < |s| && !IsSpace(s[i]) && !IsDigit(s[i]) && s[i] != '-' && s[i] != '+'
    ensures Number(s) == NaN
  {
    var t := Trim(s);
    var a := TrimOffset(s);
    TrimSurroundings(s);
    assert a <= i < a + |t|;
    assert t[i - a] == s[i];
  }

  // ---------------------------------------------------------------------
  // 32-bit integers and UTF-16

  /** ToInt32 (ECMA-262 section 7.1.6) on an integer: the unique value in the
      signed 32-bit range congruent to `x` modulo 2^32. */
  function ToInt32(x: int): (r: int)
    ensures -TWO_31 <= r < TWO_31
    ensures (x - r) % TWO_32 == 0
  {
    var m := x % TWO_32;
    if m >= TWO_31 then m - TWO_32 else m
  }

  /** ToInt32 leaves a value already in the signed 32-bit range unchanged. */
  lemma ToInt32InRange(x: int)
    requires -TWO_31 <= x < TWO_31
    ensures ToInt32(x) == x
  {
  }

  predicate IsCodeUnit(u: int) { 0 <= u < 0x1_0000 }

  /** The UTF-16 code units of a string, which is what `charCodeAt` reads: a
      scalar value above U+FFFF becomes a surrogate pair. */
  function Utf16(s: string): (units: seq<int>)
    ensures forall k :: 0 <= k < |units| ==> IsCodeUnit(units[k])
    ensures |units| >= |s|
  {
    if s == [] then []
    else
      var c := s[0] as int;
      var head := if c < 0x1_0000 then [c]
                  else [0xD800 + (c - 0x1_0000) / 0x400, 0xDC00 + (c - 0x1_0000) % 0x400];
      head + Utf16(s[1..])
  }
}
