/** The string operations of the JavaScript runtime that the blocks call:
    `trim`, `length` (in UTF-16 code units), `toLowerCase`, the decimal
    form of an integer (`toString`) and a stand-in for `localeCompare`.
    A Dafny `string` holds Unicode scalar values, one per `char`. */
module JsString {
  import opened Results

  /** ECMA-262 WhiteSpace and LineTerminator code points: the characters
      `String.prototype.trim` removes. */
  predicate IsWhiteSpace(c: char) {
    var n := c as int;
    || 0x0009 <= n <= 0x000D                        // TAB, LF, VT, FF, CR
    || n == 0x0020 || n == 0x00A0 || n == 0x1680    // SPACE, NBSP, OGHAM SPACE MARK
    || 0x2000 <= n <= 0x200A                        // EN QUAD .. HAIR SPACE
    || n == 0x2028 || n == 0x2029                   // LINE / PARAGRAPH SEPARATOR
    || n == 0x202F || n == 0x205F || n == 0x3000    // NNBSP, MMSP, IDEOGRAPHIC SPACE
    || n == 0xFEFF                                  // BYTE ORDER MARK
  }

  predicate AllWhiteSpace(s: string) {
    forall i :: 0 <= i < |s| ==> IsWhiteSpace(s[i])
  }

  /** The first position at or after `i` that does not hold white space
      (`|s|` if there is none). */
  function TextStart(s: string, i: nat): (k: nat)
    requires i <= |s|
    ensures i <= k <= |s|
    ensures forall j :: i <= j < k ==> IsWhiteSpace(s[j])
    ensures k < |s| ==> !IsWhiteSpace(s[k])
    decreases |s| - i
  {
    if i == |s| || !IsWhiteSpace(s[i]) then i else TextStart(s, i + 1)
  }

  /** The position just after the last character before `j`, and not before
      `lo`, that is not white space (`lo` if there is none). */
  function TextEnd(s: string, lo: nat, j: nat): (k: nat)
    requires lo <= j <= |s|
    ensures lo <= k <= j
    ensures forall m :: k <= m < j ==> IsWhiteSpace(s[m])
    ensures k > lo ==> !IsWhiteSpace(s[k - 1])
    decreases j
  {
    if j == lo || !IsWhiteSpace(s[j - 1]) then j else TextEnd(s, lo, j - 1)
  }

  /** `trimStart`: `s` without its leading white space. */
  function TrimStart(s: string): string {
    s[TextStart(s, 0)..]
  }

  /** `trim`: `s` without its leading and trailing white space. */
  function Trim(s: string): (r: string)
    ensures r == [] || (!IsWhiteSpace(r[0]) && !IsWhiteSpace(r[|r| - 1]))
  {
    var lo := TextStart(s, 0);
    s[lo..TextEnd(s, lo, |s|)]
  }

  /** `t` occurs in `s` at `i` with only white space around it. */
  predicate PaddedAt(s: string, t: string, i: int) {
    && 0 <= i <= |s| - |t|
    && s[i..i + |t|] == t
    && AllWhiteSpace(s[..i])
    && AllWhiteSpace(s[i + |t|..])
  }

  /** `s` is `Trim(s)` with white space on either side; `Trim(s)` starts
      where `trimStart` cuts. */
  lemma TrimIsInfix(s: string)
    ensures PaddedAt(s, Trim(s), TextStart(s, 0))
  {
    var lo := TextStart(s, 0);
    var hi := TextEnd(s, lo, |s|);
    assert AllWhiteSpace(s[..lo]) by {
      forall j | 0 <= j < lo ensures IsWhiteSpace(s[..lo][j]) {
        assert s[..lo][j] == s[j];
      }
    }
    assert AllWhiteSpace(s[hi..]) by {
      forall j | 0 <= j < |s| - hi ensures IsWhiteSpace(s[hi..][j]) {
        assert s[hi..][j] == s[hi + j];
      }
    }
  }

  /** `trimStart` cuts exactly the white space before the first other character. */
  lemma TrimStartOfPadded(s: string, i: int)
    requires 0 <= i <= |s| && AllWhiteSpace(s[..i])
    requires i < |s| ==> !IsWhiteSpace(s[i])
    ensures TrimStart(s) == s[i..]
  {
    forall j | 0 <= j < i ensures IsWhiteSpace(s[j]) {
      assert s[..i][j] == s[j];
    }
    assert TextStart(s, 0) == i;
  }

  /** `trim` yields the one string that is neither padded itself nor more
      than white space away from the ends of `s`. */
  lemma TrimOfPadded(s: string, t: string, i: int)
    requires PaddedAt(s, t, i)
    requires t == [] || (!IsWhiteSpace(t[0]) && !IsWhiteSpace(t[|t| - 1]))
    ensures Trim(s) == t
  {
    var lo := TextStart(s, 0);
    var hi := TextEnd(s, lo, |s|);
    var e := i + |t|;
    forall j | 0 <= j < i ensures IsWhiteSpace(s[j]) {
      assert s[..i][j] == s[j];
    }
    forall j | e <= j < |s| ensures IsWhiteSpace(s[j]) {
      assert s[e..][j - e] == s[j];
    }
    if t == [] {
      assert lo == |s|;
    } else {
      assert s[i] == t[0] && s[e - 1] == t[|t| - 1];
      assert lo == i;
      assert hi == e;
    }
  }

  /** `trim` ignores white space added on either side. */
  lemma TrimPadded(w1: string, s: string, w2: string)
    requires AllWhiteSpace(w1) && AllWhiteSpace(w2)
    ensures Trim(w1 + s + w2) == Trim(s)
  {
    var t := Trim(s);
    var i := TextStart(s, 0);
    TrimIsInfix(s);
    var u := w1 + s + w2;
    var k := |w1| + i;
    assert u[k..k + |t|] == t by {
      assert u[|w1|..|w1| + |s|] == s;
      assert u[k..k + |t|] == s[i..i + |t|];
    }
    assert AllWhiteSpace(u[..k]) by {
      forall j | 0 <= j < k ensures IsWhiteSpace(u[..k][j]) {
        if j < |w1| {
          assert u[..k][j] == w1[j];
        } else {
          assert u[..k][j] == s[..i][j - |w1|];
        }
      }
    }
    var e := k + |t|;
    assert AllWhiteSpace(u[e..]) by {
      forall j | 0 <= j < |u| - e ensures IsWhiteSpace(u[e..][j]) {
        if e + j < |w1| + |s| {
          assert u[e..][j] == s[i + |t|..][j];
        } else {
          assert u[e..][j] == w2[e + j - |w1| - |s|];
        }
      }
    }
    TrimOfPadded(u, t, k);
  }

  /** A character that is not white space survives `trim`. */
  lemma CharacterInTrim(s: string, i: int)
    requires 0 <= i < |s| && !IsWhiteSpace(s[i])
    ensures s[i] in Trim(s)
  {
    var lo := TextStart(s, 0);
    var hi := TextEnd(s, lo, |s|);
    assert lo <= i < hi;
    assert Trim(s)[i - lo] == s[i];
  }

  /** A string that neither starts nor ends with white space is its own `trim`. */
  lemma TrimUnpadded(s: string)
    requires s == [] || (!IsWhiteSpace(s[0]) && !IsWhiteSpace(s[|s| - 1]))
    ensures Trim(s) == s
  {
    assert PaddedAt(s, s, 0) by {
      assert s[..0] == [] && s[|s|..] == [] && s[0..|s|] == s;
    }
    TrimOfPadded(s, s, 0);
  }

  // ---------------------------------------------------------------------
  // Length in UTF-16 code units.
  // ---------------------------------------------------------------------

  /** The number of UTF-16 code units of one code point. */
  function Utf16Units(c: char): nat {
    if c as int > 0xFFFF then 2 else 1
  }

  /** `s.length`: code points outside the Basic Multilingual Plane count twice. */
  function Utf16Length(s: string): (n: nat)
    ensures |s| <= n <= 2 * |s|
    ensures (forall i :: 0 <= i < |s| ==> s[i] as int <= 0xFFFF) ==> n == |s|
  {
    if s == [] then 0 else Utf16Units(s[0]) + Utf16Length(s[1..])
  }

  lemma {:induction false} Utf16LengthAppend(a: string, b: string)
    ensures Utf16Length(a + b) == Utf16Length(a) + Utf16Length(b)
    decreases |a|
  {
    if a == [] {
      assert a + b == b;
    } else {
      assert (a + b)[0] == a[0] && (a + b)[1..] == a[1..] + b;
      Utf16LengthAppend(a[1..], b);
    }
  }

  // ---------------------------------------------------------------------
  // Lower case.
  // ---------------------------------------------------------------------

  /** Upper-case letters of Basic Latin and Latin-1 that have a one-to-one
      lower-case partner 32 code points above. */
  predicate IsUpper(c: char) {
    var n := c as int;
    ('A' <= c <= 'Z') || (0x00C0 <= n <= 0x00DE && n != 0x00D7)
  }

  /** `toLowerCase` of one character, for Basic Latin and Latin-1. */
  function LowerChar(c: char): (r: char)
    ensures IsUpper(c) ==> r as int == c as int + 32
    ensures !IsUpper(c) ==> r == c
    ensures !IsUpper(r)
  {
    if IsUpper(c) then (c as int + 32) as char else c
  }

  /** `s.toLowerCase()`. */
  function ToLower(s: string): (r: string)
    ensures |r| == |s| && forall i :: 0 <= i < |s| ==> r[i] == LowerChar(s[i])
  {
    seq(|s|, i requires 0 <= i < |s| => LowerChar(s[i]))
  }

  /** A string is its own lower case exactly when it has no upper-case letter. */
  lemma ToLowerFixed(s: string)
    ensures ToLower(s) == s <==> forall i :: 0 <= i < |s| ==> !IsUpper(s[i])
  {
    if ToLower(s) == s {
      forall i | 0 <= i < |s| ensures !IsUpper(s[i]) {
        assert ToLower(s)[i] == LowerChar(s[i]);
      }
    }
  }

  // ---------------------------------------------------------------------
  // Decimal digits.
  // ---------------------------------------------------------------------

  predicate IsDigit(c: char) {
    '0' <= c <= '9'
  }

  predicate AllDigits(s: string) {
    forall i :: 0 <= i < |s| ==> IsDigit(s[i])
  }

  function DigitChar(d: nat): (c: char)
    requires d < 10
    ensures IsDigit(c) && c as int - '0' as int == d
  {
    ('0' as int + d) as char
  }

  /** The shortest decimal form of a natural number, as `toString` writes it. */
  function DecimalString(n: nat): (r: string)
    ensures |r| >= 1 && AllDigits(r)
    ensures n >= 10 ==> r[0] != '0'
    decreases n
  {
    if n < 10 then [DigitChar(n)]
    else
      var p := DecimalString(n / 10);
      p + [DigitChar(n % 10)]
  }

  /** The value of a run of decimal digits. */
  function DigitsValue(s: string): nat
    requires AllDigits(s)
    decreases |s|
  {
    if s == [] then 0
    else DigitsValue(s[..|s| - 1]) * 10 + (s[|s| - 1] as int - '0' as int)
  }

  /** Reading the decimal form back gives the number. */
  lemma {:induction false} DecimalStringValue(n: nat)
    ensures DigitsValue(DecimalString(n)) == n
    decreases n
  {
    if n >= 10 {
      DecimalStringValue(n / 10);
      var r := DecimalString(n);
      assert r[..|r| - 1] == DecimalString(n / 10);
    }
  }

  /** `Number.prototype.toString()` of an integer. */
  function NumberToString(n: int): (r: string)
    ensures n >= 0 ==> r == DecimalString(n)
    ensures n < 0 ==> r == "-" + DecimalString(-n)
  {
    if n >= 0 then DecimalString(n) else "-" + DecimalString(-n)
  }

  // ---------------------------------------------------------------------
  // parseInt.
  // ---------------------------------------------------------------------

  predicate IsHexDigit(c: char) {
    IsDigit(c) || 'a' <= c <= 'f' || 'A' <= c <= 'F'
  }

  /** A digit of radix 16 when `hex` holds, of radix 10 otherwise. */
  predicate IsRadixDigit(c: char, hex: bool) {
    if hex then IsHexDigit(c) else IsDigit(c)
  }

  function HexDigitValue(c: char): (d: nat)
    requires IsHexDigit(c)
    ensures d < 16
  {
    if IsDigit(c) then c as int - '0' as int
    else if 'a' <= c <= 'f' then c as int - 'a' as int + 10
    else c as int - 'A' as int + 10
  }

  /** The value of a run of hexadecimal digits. */
  function HexValue(s: string): nat
    requires forall i :: 0 <= i < |s| ==> IsHexDigit(s[i])
    decreases |s|
  {
    if s == [] then 0
    else HexValue(s[..|s| - 1]) * 16 + HexDigitValue(s[|s| - 1])
  }

  /** The length of the run of digits that `s` starts with. */
  function DigitRun(s: string, hex: bool): (n: nat)
    ensures n <= |s|
    ensures forall i :: 0 <= i < n ==> IsRadixDigit(s[i], hex)
    ensures n < |s| ==> !IsRadixDigit(s[n], hex)
    decreases |s|
  {
    if s == [] || !IsRadixDigit(s[0], hex) then 0 else 1 + DigitRun(s[1..], hex)
  }

  /** The unsigned part of `parseInt`: a `0x` or `0X` prefix selects radix
      16, and the longest run of digits that follows is the value; with no
      digits the result is NaN (`None`). */
  function ParseDigits(u: string): Option<int> {
    var hex := |u| >= 2 && u[0] == '0' && (u[1] == 'x' || u[1] == 'X');
    var body := if hex then u[2..] else u;
    var n := DigitRun(body, hex);
    if n == 0 then None
    else Some(if hex then HexValue(body[..n]) else DigitsValue(body[..n]))
  }

  /** `parseInt(s)` with no radix (ECMA-262 section 19.2.5): leading white
      space is skipped and a sign is read before the digits. A mathematical
      value of zero is returned as zero whatever the sign (the `-0` that
      `parseInt("-0")` gives behaves as 0 wherever the blocks use it). */
  function ParseInt(s: string): Option<int> {
    var t := TrimStart(s);
    if t != [] && t[0] == '-' then
      match ParseDigits(t[1..])
      case None => None
      case Some(v) => Some(-v)
    else if t != [] && t[0] == '+' then ParseDigits(t[1..])
    else ParseDigits(t)
  }

  /** A run of decimal digits, ended by the end of the text or by any other
      character, is read as a decimal number. */
  lemma ParseDecimalDigits(d: string, rest: string)
    requires |d| >= 1 && AllDigits(d)
    requires rest == [] || !IsDigit(rest[0])
    requires d == "0" ==> rest == [] || (rest[0] != 'x' && rest[0] != 'X')
    ensures ParseDigits(d + rest) == Some(DigitsValue(d))
  {
    var u := d + rest;
    assert u[0] == d[0];
    assert |d| >= 2 ==> u[1] == d[1];
    forall i | 0 <= i < |d| ensures IsDigit(u[i]) {
      assert u[i] == d[i];
    }
    assert DigitRun(u, false) == |d| by {
      if |d| < |u| {
        assert u[|d|] == rest[0];
      }
    }
    assert u[..|d|] == d;
  }

  /** The decimal digits that follow optional white space are the value;
      parsing stops at the first other character. */
  lemma ParseIntDecimal(w: string, d: string, rest: string)
    requires AllWhiteSpace(w) && |d| >= 1 && AllDigits(d)
    requires rest == [] || !IsDigit(rest[0])
    requires d == "0" ==> rest == [] || (rest[0] != 'x' && rest[0] != 'X')
    ensures ParseInt(w + d + rest) == Some(DigitsValue(d))
  {
    var u := d + rest;
    assert w + d + rest == w + u;
    assert u[0] == d[0];
    ParseIntAfterSpace(w, u);
    ParseDecimalDigits(d, rest);
  }

  /** White space before a digit is skipped, and no sign is read. */
  lemma ParseIntAfterSpace(w: string, u: string)
    requires AllWhiteSpace(w) && u != [] && IsDigit(u[0])
    ensures ParseInt(w + u) == ParseDigits(u)
  {
    var s := w + u;
    assert s[..|w|] == w && s[|w|..] == u;
    TrimStartOfPadded(s, |w|);
  }

  /** The decimal form of a natural number reads back as that number. */
  lemma ParseDecimalString(m: nat)
    ensures ParseDigits(DecimalString(m)) == Some(m)
  {
    var d := DecimalString(m);
    DecimalStringValue(m);
    ParseDecimalDigits(d, "");
    assert d + "" == d;
  }

  /** Reading back the decimal form of an integer gives the integer. */
  lemma ParseIntOfNumber(n: int)
    ensures ParseInt(NumberToString(n)) == Some(n)
  {
    var s := NumberToString(n);
    var m := if n >= 0 then n else -n;
    var d := DecimalString(m);
    ParseDecimalString(m);
    TrimStartOfPadded(s, 0);
    assert TrimStart(s) == s;
    if n < 0 {
      assert s[0] == '-' && s[1..] == d;
    } else {
      assert s == d && s[0] != '-' && s[0] != '+';
    }
  }

  /** With no digit (after white space and a sign) the result is NaN. */
  lemma ParseIntNaN(s: string, i: int)
    requires 0 <= i <= |s| && AllWhiteSpace(s[..i])
    requires i < |s| ==> !IsWhiteSpace(s[i]) && !IsDigit(s[i]) && s[i] != '-' && s[i] != '+'
    ensures ParseInt(s) == None
  {
    TrimStartOfPadded(s, i);
    if i < |s| {
      assert TrimStart(s)[0] == s[i];
    }
  }

  // ---------------------------------------------------------------------
  // Ordering of strings.
  // ---------------------------------------------------------------------

  /** Stand-in for `a.localeCompare(b, undefined, { numeric: true })`: a
      three-way lexicographic comparison by code point, negative when `a`
      comes first, zero when the strings are equal, positive otherwise. */
  function LocaleCompare(a: string, b: string): int
    decreases |a|
  {
    if a == [] && b == [] then 0
    else if a == [] then -1
    else if b == [] then 1
    else if a[0] < b[0] then -1
    else if a[0] > b[0] then 1
    else LocaleCompare(a[1..], b[1..])
  }

  /** Swapping the operands flips the sign. */
  lemma {:induction false} LocaleCompareFlip(a: string, b: string)
    ensures LocaleCompare(b, a) == -LocaleCompare(a, b)
    decreases |a|
  {
    if a != [] && b != [] && a[0] == b[0] {
      LocaleCompareFlip(a[1..], b[1..]);
    }
  }

  /** Only equal strings compare equal. */
  lemma {:induction false} LocaleCompareZero(a: string, b: string)
    ensures LocaleCompare(a, b) == 0 <==> a == b
    decreases |a|
  {
    if a != [] && b != [] && a[0] == b[0] {
      LocaleCompareZero(a[1..], b[1..]);
      if a[1..] == b[1..] {
        assert a == [a[0]] + a[1..] && b == [b[0]] + b[1..];
      }
    }
  }

  /** "Comes no later than" is transitive. */
  lemma {:induction false} LocaleCompareTransitive(a: string, b: string, c: string)
    requires LocaleCompare(a, b) <= 0 && LocaleCompare(b, c) <= 0
    ensures LocaleCompare(a, c) <= 0
    decreases |a|
  {
    if a != [] && b != [] && c != [] && a[0] == b[0] && b[0] == c[0] {
      LocaleCompareTransitive(a[1..], b[1..], c[1..]);
    }
  }
}
