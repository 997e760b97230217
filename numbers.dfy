/**
 * The two JavaScript string-to-number conversions the visualizers apply to
 * what the user types: `Number(s)` (the whole trimmed text must be a
 * number; blank text is 0) and `parseInt(s)` (the longest leading run of
 * digits after optional blanks and a sign). Both are modelled for decimal
 * integers; `NaN` is the datatype's own case.
 */
module Numbers {

  /** A JavaScript number as the model sees it: an integer or `NaN`. */
  datatype Num = NaN | Int(value: int)

  /** `Boolean(x)` of a number: `0` and `NaN` are falsy, everything else truthy. */
  predicate Truthy(x: Num)
  {
    x.Int? && x.value != 0
  }

  predicate IsDigit(c: char)
  {
    '0' <= c <= '9'
  }

  /** The white space `Number` and `parseInt` skip. */
  predicate IsBlank(c: char)
  {
    c == ' ' || c == '\t' || c == '\n' || c == '\r'
  }

  predicate AllDigits(s: string)
  {
    forall i :: 0 <= i < |s| ==> IsDigit(s[i])
  }

  function DigitValue(c: char): nat
    requires IsDigit(c)
  {
    (c as int) - ('0' as int)
  }

  /** The value of a run of decimal digits, most significant first. */
  function DigitsValue(s: string): nat
    requires AllDigits(s)
    decreases |s|
  {
    if s == [] then 0 else DigitsValue(s[..|s| - 1]) * 10 + DigitValue(s[|s| - 1])
  }

  /** `String(n)` for a natural number: its decimal digits without leading zeros. */
  function Decimal(n: nat): (s: string)
    ensures |s| >= 1 && AllDigits(s)
  {
    if n < 10 then [('0' as int + n) as char]
    else Decimal(n / 10) + [('0' as int + n % 10) as char]
  }

  function TrimStart(s: string): (t: string)
    ensures |t| <= |s| && t == s[|s| - |t|..]
    ensures t != [] ==> !IsBlank(t[0])
  {
    if s != [] && IsBlank(s[0]) then TrimStart(s[1..]) else s
  }

  function TrimEnd(s: string): (t: string)
    ensures |t| <= |s| && t == s[..|t|]
    ensures t != [] ==> !IsBlank(t[|t| - 1])
  {
    if s != [] && IsBlank(s[|s| - 1]) then TrimEnd(s[..|s| - 1]) else s
  }

  function Trim(s: string): string
  {
    TrimEnd(TrimStart(s))
  }

  /** Applies a leading `-` (or drops a leading `+`) to the value of the digits after it. */
  function Signed(negative: bool, n: nat): int
  {
    if negative then -(n as int) else n
  }

  /** `Number(s)` on text that is blank or a signed decimal integer; any other text is `NaN`. */
  function NumberOf(s: string): (r: Num)
    // a number is read only from blank text or text that ends in a digit
    ensures r.Int? ==> Trim(s) == [] || IsDigit(Trim(s)[|Trim(s)| - 1])
  {
    var t := Trim(s);
    if t == [] then Int(0)
    else
      var negative := t[0] == '-';
      var digits := if t[0] == '-' || t[0] == '+' then t[1..] else t;
      if digits != [] && AllDigits(digits) then Int(Signed(negative, DigitsValue(digits))) else NaN
  }

  /** The longest prefix of `s` made of digits. */
  function LeadingDigits(s: string): (d: string)
    ensures |d| <= |s| && d == s[..|d|] && AllDigits(d)
    ensures |d| < |s| ==> !IsDigit(s[|d|])
  {
    if s != [] && IsDigit(s[0]) then [s[0]] + LeadingDigits(s[1..]) else []
  }

  /** `parseInt(s)` in base 10: blanks, an optional sign, then as many digits as follow; none is `NaN`. */
  function ParseInt(s: string): (r: Num)
    // a number is read only when the text after the blanks starts with a sign or a digit
    ensures r.Int? ==> TrimStart(s) != [] && (TrimStart(s)[0] in "+-" || IsDigit(TrimStart(s)[0]))
  {
    var t := TrimStart(s);
    var negative := t != [] && t[0] == '-';
    var rest := if t != [] && (t[0] == '-' || t[0] == '+') then t[1..] else t;
    var digits := LeadingDigits(rest);
    if digits == [] then NaN else Int(Signed(negative, DigitsValue(digits)))
  }

  lemma {:induction false} DecimalValue(n: nat)
    ensures DigitsValue(Decimal(n)) == n
  {
    if n >= 10 {
      DecimalValue(n / 10);
      var s := Decimal(n);
      assert s[..|s| - 1] == Decimal(n / 10);
    }
  }

  lemma {:induction false} DigitsUntrimmed(s: string)
    requires s != [] && AllDigits(s)
    ensures TrimStart(s) == s && TrimEnd(s) == s
  {
  }

  /** Reading back the decimal form of a natural number with `Number` gives that number. */
  lemma {:induction false} NumberOfDecimal(n: nat)
    ensures NumberOf(Decimal(n)) == Int(n)
  {
    var d := Decimal(n);
    DecimalValue(n);
    DigitsUntrimmed(d);
    assert Trim(d) == d;
    assert d[0] != '-' && d[0] != '+';
  }

  /** The same with a minus sign in front gives the negated number. */
  lemma {:induction false} NumberOfNegativeDecimal(n: nat)
    ensures NumberOf(['-'] + Decimal(n)) == Int(-(n as int))
  {
    var d := Decimal(n);
    DecimalValue(n);
    var m := ['-'] + d;
    assert m[1..] == d;
    assert !IsBlank(m[0]) && IsDigit(d[|d| - 1]);
    assert TrimStart(m) == m;
    assert m[|m| - 1] == d[|d| - 1];
    assert TrimEnd(m) == m;
  }

  /**
   * `parseInt` reads the digits of a number up to the first character that is
   * not a digit, so the decimal form of `n` followed by text that does not
   * start with a digit reads back as `n`.
   */
  lemma {:induction false} ParseIntDecimal(n: nat, tail: string)
    requires tail == [] || !IsDigit(tail[0])
    ensures ParseInt(Decimal(n) + tail) == Int(n)
  {
    var d := Decimal(n);
    DecimalValue(n);
    var s := d + tail;
    assert TrimStart(s) == s;
    LeadingDigitsPrefix(d, tail);
  }

  lemma {:induction false} LeadingDigitsPrefix(d: string, tail: string)
    requires AllDigits(d) && (tail == [] || !IsDigit(tail[0]))
    ensures LeadingDigits(d + tail) == d
    decreases |d|
  {
    if d != [] {
      assert (d + tail)[1..] == d[1..] + tail;
      LeadingDigitsPrefix(d[1..], tail);
    }
  }

  /** Text with no digit after the blanks and the sign is `NaN` to `parseInt`. */
  lemma NoDigitsNaN(s: string)
    requires var t := TrimStart(s);
             t == [] || (!IsDigit(t[0]) && t[0] != '-' && t[0] != '+')
    ensures ParseInt(s) == NaN
  {
  }

  /** Blank text is 0 to `Number`; 0 and `NaN` are the two falsy numbers. */
  lemma BlankIsZero(s: string)
    requires forall i :: 0 <= i < |s| ==> IsBlank(s[i])
    ensures NumberOf(s) == Int(0) && !Truthy(NumberOf(s))
  {
    BlanksTrimmed(s);
  }

  lemma {:induction false} BlanksTrimmed(s: string)
    requires forall i :: 0 <= i < |s| ==> IsBlank(s[i])
    ensures TrimStart(s) == []
    decreases |s|
  {
    if s != [] {
      BlanksTrimmed(s[1..]);
    }
  }
}
