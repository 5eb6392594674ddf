/** The "Is Number" block (blocks/is-number.ts): it fires "true_action"
    when its input, a string or a number, reads as a run of decimal digits
    once the ends are trimmed, and "false_action" otherwise. */
module IsNumberBlock {
  import opened JsString
  import opened JsValue
  import opened Host

  /** `isNumber`: only strings and numbers qualify, and their string form,
      trimmed, must match `/^[0-9]+$/`. */
  function IsNumber(value: Value): (r: bool)
    ensures r ==> value.Str? || value.Num?
    ensures r ==> |Trim(ToString(value))| >= 1
  {
    if !value.Str? && !value.Num? then false
    else
      var t := Trim(ToString(value));
      |t| >= 1 && AllDigits(t)
  }

  /** White space, then at least one digit, then white space: the strings
      `isNumber` accepts. */
  predicate PaddedDigits(s: string, i: int, j: int) {
    && 0 <= i < j <= |s|
    && AllWhiteSpace(s[..i])
    && AllDigits(s[i..j])
    && AllWhiteSpace(s[j..])
  }

  /** A string that `isNumber` accepts is white space, digits, white space. */
  lemma NumberIsPadded(s: string)
    requires IsNumber(Str(s))
    ensures exists i, j :: PaddedDigits(s, i, j)
  {
    var t := Trim(s);
    var i := TextStart(s, 0);
    TrimIsInfix(s);
    assert PaddedDigits(s, i, i + |t|);
  }

  /** Trimming a padded run of digits leaves the digits. */
  lemma TrimPaddedDigits(s: string, i: int, j: int)
    requires PaddedDigits(s, i, j)
    ensures Trim(s) == s[i..j]
  {
    var d := s[i..j];
    assert IsDigit(d[0]) && IsDigit(d[|d| - 1]);
    TrimOfPadded(s, d, i);
  }

  /** White space, digits, white space is accepted. */
  lemma PaddedIsNumber(s: string, i: int, j: int)
    requires PaddedDigits(s, i, j)
    ensures IsNumber(Str(s))
  {
    TrimPaddedDigits(s, i, j);
    assert ToString(Str(s)) == s;
  }

  /** A string is a number exactly when it is a run of digits with white
      space on either side. */
  lemma StringIsNumber(s: string)
    ensures IsNumber(Str(s)) <==> exists i, j :: PaddedDigits(s, i, j)
  {
    if IsNumber(Str(s)) {
      NumberIsPadded(s);
    }
    if exists i, j :: PaddedDigits(s, i, j) {
      var i, j :| PaddedDigits(s, i, j);
      PaddedIsNumber(s, i, j);
    }
  }

  /** A number is a number exactly when it is not negative: the minus sign
      of `toString` fails the pattern. */
  lemma NumberIsNumber(n: int)
    ensures IsNumber(Num(n)) <==> n >= 0
  {
    var r := NumberToString(n);
    assert r[0] != ' ' && !IsWhiteSpace(r[0]);
    assert !IsWhiteSpace(r[|r| - 1]);
    TrimUnpadded(r);
    if n < 0 {
      assert r[0] == '-' && !IsDigit(r[0]);
    }
  }

  /** Every character of a string that `isNumber` accepts is a digit or
      white space. */
  lemma NumberCharacters(s: string)
    requires IsNumber(Str(s))
    ensures forall k :: 0 <= k < |s| ==> IsDigit(s[k]) || IsWhiteSpace(s[k])
  {
    var t := Trim(s);
    var i := TextStart(s, 0);
    TrimIsInfix(s);
    var e := i + |t|;
    forall k | 0 <= k < |s| ensures IsDigit(s[k]) || IsWhiteSpace(s[k]) {
      if k < i {
        assert s[..i][k] == s[k];
      } else if k < e {
        assert t[k - i] == s[k];
      } else {
        assert s[e..][k - e] == s[k];
      }
    }
  }

  /** Any character other than a digit or white space makes a string fail. */
  lemma NonDigitRejected(s: string, k: int)
    requires 0 <= k < |s| && !IsDigit(s[k]) && !IsWhiteSpace(s[k])
    ensures !IsNumber(Str(s))
  {
    if IsNumber(Str(s)) {
      NumberCharacters(s);
    }
  }

  /** White space around a digit run does not matter. */
  lemma PaddingAccepted(w1: string, d: string, w2: string)
    requires AllWhiteSpace(w1) && AllWhiteSpace(w2) && |d| >= 1 && AllDigits(d)
    ensures IsNumber(Str(w1 + d + w2))
  {
    var s := w1 + d + w2;
    assert s[..|w1|] == w1 && s[|w1|..|w1| + |d|] == d && s[|w1| + |d|..] == w2;
    PaddedIsNumber(s, |w1|, |w1| + |d|);
  }

  /** The continuation fired for a verdict. */
  function Continuation(isNumber: bool): string {
    if isNumber then "true_action" else "false_action"
  }

  /** `code()`: fire "true_action" when the input is a number and
      "false_action" otherwise. */
  method Code(dbb: DBBMock, cache: Cache)
    modifies cache`outputs
    ensures cache.outputs == old(cache.outputs)[Continuation(IsNumber(Get(cache.inputs, "input"))) := Called]
  {
    var input := dbb.GetInputValue("input", cache);
    if IsNumber(input) {
      dbb.RunNextBlock("true_action", cache);
    } else {
      dbb.RunNextBlock("false_action", cache);
    }
  }

  /** `DBBMock.runBlock(isNumber, inputs, {})`: the block has no options,
      and exactly one continuation fires. */
  method RunBlock(inputs: map<string, Value>) returns (cache: Cache)
    ensures fresh(cache)
    ensures cache.outputs == map[Continuation(IsNumber(Get(inputs, "input"))) := Called]
  {
    var dbb;
    dbb, cache := DBBMock.PrepareRun([], inputs, map[]);
    Code(dbb, cache);
  }

  // Cases of test/is-number.test.ts.

  lemma DigitsAccepted()
    ensures IsNumber(Str("1235"))
  {
    PaddedIsNumber("1235", 0, 4);
  }

  lemma LeadingSpaceAccepted()
    ensures IsNumber(Str(" 1235"))
  {
    PaddedIsNumber(" 1235", 1, 5);
  }

  lemma SurroundingSpaceAccepted()
    ensures IsNumber(Str(" 1235 "))
  {
    PaddedIsNumber(" 1235 ", 1, 5);
  }

  lemma TrailingSpaceAccepted()
    ensures IsNumber(Str("1235 "))
  {
    PaddedIsNumber("1235 ", 0, 4);
  }

  lemma NumbersAndSigns()
    ensures IsNumber(Num(1234))
    ensures !IsNumber(Num(-1234))
  {
    NumberIsNumber(1234);
    NumberIsNumber(-1234);
  }

  lemma MinusRejected()
    ensures !IsNumber(Str("-1235"))
  {
    NonDigitRejected("-1235", 0);
  }

  lemma DecimalPointRejected()
    ensures !IsNumber(Str("12.35"))
  {
    NonDigitRejected("12.35", 2);
  }

  lemma DecimalCommaRejected()
    ensures !IsNumber(Str("12,35"))
  {
    NonDigitRejected("12,35", 2);
  }

  lemma ThousandsCommaRejected()
    ensures !IsNumber(Str("1,235"))
  {
    NonDigitRejected("1,235", 1);
  }

  lemma ThousandsPointRejected()
    ensures !IsNumber(Str("1.235"))
  {
    NonDigitRejected("1.235", 1);
  }

  lemma LettersRejected()
    ensures !IsNumber(Str("aaaa"))
  {
    NonDigitRejected("aaaa", 0);
  }

  lemma OtherTypesRejected()
    ensures !IsNumber(Bool(false)) && !IsNumber(Bool(true))
    ensures !IsNumber(Null) && !IsNumber(Undefined)
  {
  }
}
