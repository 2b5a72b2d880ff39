/** Numbers as text: `digits`, `utoa`, `itoa` and `atoi`. */
module Numerals {
  const ALPHABET: string := "0123456789ABCDEFGHIJKLMNOPQRSTUVWXYZ"
  const UINT_MAX: nat := 0xFFFF_FFFF
  const INT_MAX: int := 0x7FFF_FFFF

  predicate IsBase(base: int) {
    2 <= base <= 36
  }

  /** The character for a digit. */
  function Digit(d: nat): char
    requires d < 36
  {
    ALPHABET[d]
  }

  /** The digit value of a character, 36 for a character that is no digit. */
  function DigitValue(c: char): nat {
    if '0' <= c <= '9' then (c - '0') as nat else if 'A' <= c <= 'Z' then (c - 'A') as nat + 10 else 36
  }

  lemma DigitsMatch(d: nat)
    requires d < 36
    ensures DigitValue(Digit(d)) == d && (Digit(d) == '0' <==> d == 0)
  {
  }

  /** Digits are '0' to '9' and then capital letters, by their character codes. */
  lemma DigitCharacter(d: nat)
    requires d < 36
    ensures Digit(d) as int == if d < 10 then 48 + d else 55 + d
  {
  }

  lemma ValuesMatch(c: char)
    requires DigitValue(c) < 36
    ensures Digit(DigitValue(c)) == c
  {
  }

  lemma DivisionOfSum(v: nat, d: nat, base: nat)
    requires d < base
    ensures (v * base + d) / base == v && (v * base + d) % base == d
  {
    var p := v * base + d;
    var e := p / base - v;
    assert p == p / base * base + p % base;
    assert e * base == p / base * base - v * base;
  }

  lemma DivisionShrinks(value: nat, base: nat)
    requires value >= base >= 2
    ensures 0 < value / base < value && value == value / base * base + value % base
  {
  }

  ghost predicate IsNumeral(s: string, base: nat) {
    s != [] && (forall i :: 0 <= i < |s| ==> DigitValue(s[i]) < base) && (|s| > 1 ==> s[0] != '0')
  }

  /** The number a digit string denotes. */
  function Value(s: string, base: nat): nat {
    if s == [] then 0 else Value(s[..|s| - 1], base) * base + DigitValue(s[|s| - 1])
  }

  /** The numeral of a number. */
  function Numeral(value: nat, base: nat): (s: string)
    requires IsBase(base)
    ensures s != []
    decreases value
  {
    if value < base then [Digit(value)]
    else
      DivisionShrinks(value, base);
      Numeral(value / base, base) + [Digit(value % base)]
  }

  /** The numeral denotes the number and has no leading zero. */
  lemma {:induction false} NumeralDenotes(value: nat, base: nat)
    requires IsBase(base)
    ensures IsNumeral(Numeral(value, base), base) && Value(Numeral(value, base), base) == value
    ensures value > 0 ==> Numeral(value, base)[0] != '0'
    decreases value
  {
    hide Digit, DigitValue;
    var s := Numeral(value, base);
    if value < base {
      DigitsMatch(value);
      assert s[..0] == [];
    } else {
      DivisionShrinks(value, base);
      NumeralDenotes(value / base, base);
      DigitsMatch(value % base);
      assert s[..|s| - 1] == Numeral(value / base, base);
    }
  }

  lemma NumeralStep(v: nat, d: nat, base: nat)
    requires IsBase(base) && v > 0 && d < base
    ensures v * base + d > 0 && Numeral(v * base + d, base) == Numeral(v, base) + [Digit(d)]
  {
    hide Digit;
    var n := v * base + d;
    AtLeast(v, base);
    DivisionOfSum(v, d, base);
    assert n >= base && n / base == v && n % base == d;
  }

  lemma AtLeast(v: nat, base: nat)
    requires v > 0
    ensures v * base >= base
  {
  }

  /** It is the only one. */
  lemma {:induction false} NumeralIsUnique(s: string, base: nat)
    requires IsBase(base) && IsNumeral(s, base)
    ensures s == Numeral(Value(s, base), base)
    ensures s[0] != '0' ==> Value(s, base) > 0
    decreases |s|
  {
    hide Digit, DigitValue;
    var front, last := s[..|s| - 1], s[|s| - 1];
    var d := DigitValue(last);
    ValuesMatch(last);
    DigitsMatch(d);
    if |s| == 1 {
      assert front == [];
    } else {
      NumeralIsUnique(front, base);
      NumeralStep(Value(front, base), d, base);
      assert s == front + [last];
    }
  }

  // ----- Writing numbers

  /** The last digit of a numeral, and what is in front of it. */
  lemma NumeralUnfolds(value: nat, base: nat)
    requires IsBase(base)
    ensures value % base < 36 && value / base >= 0
    ensures value < base ==> value / base == 0 && Numeral(value, base) == [Digit(value % base)]
    ensures value >= base ==> 0 < value / base < value && Numeral(value, base) == Numeral(value / base, base) + [Digit(value % base)]
  {
    DivisionBounds(value, base);
    hide Digit;
  }

  lemma DivisionBounds(value: nat, base: nat)
    requires IsBase(base)
    ensures 0 <= value % base < 36 && value / base >= 0 && (value < base ==> value / base == 0 && value % base == value)
    ensures value >= base ==> 0 < value / base < value
  {
    if value >= base {
      DivisionShrinks(value, base);
    } else {
      DivisionOfSum(0, value, base);
    }
  }

  /** `digits`: the length of the numeral. */
  method Digits(x: nat, base: nat) returns (n: nat)
    requires IsBase(base)
    ensures n == |Numeral(x, base)|
  {
    if x == 0 {
      NumeralUnfolds(0, base);
      return 1;
    }
    n := 0;
    var rest: nat := x;
    hide Digit, Numeral;
    while rest > 0
      invariant n + (if rest == 0 then 0 else |Numeral(rest, base)|) == |Numeral(x, base)|
    {
      NumeralUnfolds(rest, base);
      rest := rest / base;
      n := n + 1;
    }
  }

  /** `utoa`, into the buffer from index `at` on: the numeral and a terminator, or nothing for an unusable base. */
  method Utoa(value: nat, str: array<char>, at: nat, base: int) returns (ok: bool)
    requires value <= UINT_MAX && (IsBase(base) ==> at + |Numeral(value, base)| < str.Length)
    modifies str
    ensures ok <==> IsBase(base)
    ensures !ok ==> unchanged(str)
    ensures ok ==> var n := |Numeral(value, base)|; str[at..at + n] == Numeral(value, base) && str[at + n] == '\0'
    ensures ok ==> forall i :: 0 <= i < str.Length && !(at <= i <= at + |Numeral(value, base)|) ==> str[i] == old(str[i])
  {
    if base < 2 || base > 36 {
      return false;
    }
    hide Digit, Numeral;
    var len := WriteDigits(value, str, at, base);
    str[at + len] := '\0';
    return true;
  }

  /** The loop of `utoa`: digits from the last to the first. */
  method WriteDigits(value: nat, str: array<char>, at: nat, base: nat) returns (len: nat)
    requires IsBase(base) && at + |Numeral(value, base)| < str.Length
    modifies str
    ensures len == |Numeral(value, base)| && str[at..at + len] == Numeral(value, base)
    ensures forall p :: 0 <= p < str.Length && !(at <= p < at + len) ==> str[p] == old(str[p])
  {
    hide Digit, Numeral;
    ghost var text := Numeral(value, base);
    len := Digits(value, base);
    var i: nat, rest: nat := len, value;
    while i > 0
      invariant i <= len && (i > 0 ==> text[..i] == Numeral(rest, base))
      invariant forall p :: i <= p < len ==> str[at + p] == text[p]
      invariant forall p :: 0 <= p < str.Length && !(at <= p < at + len) ==> str[p] == old(str[p])
    {
      i := i - 1;
      NumeralUnfolds(rest, base);
      var d, q := rest % base, rest / base;
      LastOf(text, i, rest, base);
      str[at + i] := Digit(d);
      rest := q;
    }
  }

  lemma LastOf(text: string, i: nat, rest: nat, base: nat)
    requires IsBase(base) && i < |text| && text[..i + 1] == Numeral(rest, base)
    ensures rest % base < 36 && text[i] == Digit(rest % base) && (i > 0 ==> text[..i] == Numeral(rest / base, base))
  {
    hide Digit, Numeral;
    NumeralUnfolds(rest, base);
    assert text[..i + 1][..i] == text[..i] && text[..i + 1][i] == text[i];
  }

  /** The text of a signed number. */
  function Text(value: int, base: nat): string
    requires IsBase(base)
  {
    if value < 0 then "-" + Numeral(-value, base) else Numeral(value, base)
  }

  /** `itoa`. The pointer returned is the one from `utoa`: behind the sign for a negative number, null for an unusable base. */
  method Itoa(value: int, str: array<char>, base: int) returns (start: int)
    requires -INT_MAX <= value <= INT_MAX && str.Length > 0
    requires IsBase(base) ==> |Text(value, base)| < str.Length
    modifies str
    ensures start == if !IsBase(base) then -1 else if value < 0 then 1 else 0
    ensures IsBase(base) ==> var n := |Text(value, base)|; str[..n] == Text(value, base) && str[n] == '\0'
  {
    hide Digit, Numeral;
    var ok;
    if value < 0 {
      str[0] := '-';
      ok := Utoa(-value, str, 1, base);
      return if ok then 1 else -1;
    }
    ok := Utoa(value, str, 0, base);
    return if ok then 0 else -1;
  }

  // ----- Reading numbers

  predicate IsSpace(c: char) {
    c in " \t\n\U{000B}\U{000C}\r"
  }

  predicate IsDecimal(c: char) {
    '0' <= c <= '9'
  }

  /** The text after leading white space. */
  function SkipSpaces(s: string): string {
    if s != [] && IsSpace(s[0]) then SkipSpaces(s[1..]) else s
  }

  /** The longest prefix of decimal digits. */
  function DigitsOf(s: string): string {
    if s != [] && IsDecimal(s[0]) then [s[0]] + DigitsOf(s[1..]) else []
  }

  /** The digits `atoi` reads: after white space and one optional sign. */
  function Unsigned(s: string): string {
    var t := SkipSpaces(s);
    DigitsOf(if t != [] && (t[0] == '-' || t[0] == '+') then t[1..] else t)
  }

  predicate IsNegative(s: string) {
    var t := SkipSpaces(s);
    t != [] && t[0] == '-'
  }

  /** The number a text denotes. */
  function Parsed(s: string): int {
    var v: int := Value(Unsigned(s), 10);
    if IsNegative(s) then -v else v
  }

  /** The six characters of white space, by their codes. */
  predicate Blank(c: char) {
    c == ' ' || 9 <= c as int <= 13
  }

  lemma BlankIsSpace(c: char)
    ensures IsSpace(c) <==> Blank(c)
  {
    assert IsSpace(c) <==> c == ' ' || c == '\t' || c == '\n' || c == '\U{000B}' || c == '\U{000C}' || c == '\r';
  }

  lemma {:induction false} SkipsAllBlanks(blanks: string, s: string)
    requires (forall i :: 0 <= i < |blanks| ==> Blank(blanks[i])) && (s == [] || !Blank(s[0]))
    ensures SkipSpaces(blanks + s) == s
  {
    hide IsSpace, Blank;
    if blanks == [] {
      assert blanks + s == s;
      if s != [] {
        BlankIsSpace(s[0]);
      }
    } else {
      BlankIsSpace(blanks[0]);
      assert (blanks + s)[1..] == blanks[1..] + s;
      SkipsAllBlanks(blanks[1..], s);
    }
  }

  lemma {:induction false} TakesAllDigits(digits: string, rest: string)
    requires (forall i :: 0 <= i < |digits| ==> '0' <= digits[i] <= '9') && (rest == [] || !('0' <= rest[0] <= '9'))
    ensures DigitsOf(digits + rest) == digits
  {
    if digits == [] {
      assert digits + rest == rest;
    } else {
      assert (digits + rest)[1..] == digits[1..] + rest;
      TakesAllDigits(digits[1..], rest);
      assert digits == [digits[0]] + digits[1..];
    }
  }

  lemma ParsedAfterBlanks(s: string, t: string)
    requires SkipSpaces(s) == t
    ensures t != [] && t[0] == '-' ==> Parsed(s) == -(Value(DigitsOf(t[1..]), 10) as int)
    ensures t != [] && t[0] == '+' ==> Parsed(s) == Value(DigitsOf(t[1..]), 10)
    ensures t == [] || (t[0] != '-' && t[0] != '+') ==> Parsed(s) == Value(DigitsOf(t), 10)
  {
    hide SkipSpaces, DigitsOf, Value;
  }

  datatype Sign = Plain | Minus | Plus {
    function Text(): string {
      match this case Plain => "" case Minus => "-" case Plus => "+"
    }
  }

  /** What a text means, by its parts: blanks, at most one sign, digits, and whatever follows the digits. Every text has such parts. */
  lemma ParsedByParts(blanks: string, sign: Sign, digits: string, rest: string)
    requires forall i :: 0 <= i < |blanks| ==> Blank(blanks[i])
    requires (forall i :: 0 <= i < |digits| ==> '0' <= digits[i] <= '9') && (rest == [] || !('0' <= rest[0] <= '9'))
    requires sign.Plain? && digits == [] && rest != [] ==> !Blank(rest[0]) && rest[0] != '-' && rest[0] != '+'
    ensures var number: int := Value(digits, 10);
      Parsed(blanks + (sign.Text() + (digits + rest))) == if sign.Minus? then -number else number
  {
    hide Value, DigitsOf, SkipSpaces, Parsed;
    var t := sign.Text() + (digits + rest);
    match sign {
      case Plain => assert t == digits + rest;
      case Minus => assert t[0] == '-' && t[1..] == digits + rest;
      case Plus => assert t[0] == '+' && t[1..] == digits + rest;
    }
    SkipsAllBlanks(blanks, t);
    TakesAllDigits(digits, rest);
    ParsedAfterBlanks(blanks + t, t);
  }

  /** A C string: `n` characters and a terminator. */
  ghost predicate Terminated(str: array<char>, n: nat)
    reads str
  {
    n < str.Length && str[n] == '\0' && forall i :: 0 <= i < n ==> str[i] != '\0'
  }

  /** The first loop of `atoi`. */
  method SkipBlanks(str: array<char>, ghost n: nat) returns (i: nat)
    requires Terminated(str, n)
    ensures i <= n && str[i..n] == SkipSpaces(str[..n])
  {
    ghost var s := str[..n];
    i := 0;
    while IsSpace(str[i])
      invariant i <= n && SkipSpaces(s) == SkipSpaces(s[i..])
      decreases n - i
    {
      assert s[i..][1..] == s[i + 1..];
      i := i + 1;
    }
    assert str[i..n] == s[i..];
    assert i < n ==> s[i..][0] == str[i];
  }

  /** The second loop of `atoi`. */
  method ReadDigits(str: array<char>, start: nat, ghost n: nat) returns (ret: int)
    requires Terminated(str, n) && start <= n
    ensures ret == Value(DigitsOf(str[start..n]), 10)
  {
    hide Value, DigitsOf;
    ghost var s := str[start..n];
    ghost var all := DigitsOf(s);
    var i: nat := start;
    ret := 0;
    ValueOfNone();
    assert s[..0] + all == all && s[0..] == s;
    while IsDecimal(str[i])
      invariant start <= i <= n && all == s[..i - start] + DigitsOf(s[i - start..]) && ret == Value(s[..i - start], 10)
      decreases n - i
    {
      ghost var k: nat := i - start;
      OneMoreDigit(s, k);
      ret := ret * 10;
      ret := ret + (str[i] - '0') as int;
      i := i + 1;
    }
    NoMoreDigits(s, i - start);
  }

  lemma ValueOfNone()
    ensures Value([], 10) == 0
  {
  }

  lemma OneMoreDigit(s: string, k: nat)
    requires k < |s| && IsDecimal(s[k])
    ensures s[..k] + DigitsOf(s[k..]) == s[..k + 1] + DigitsOf(s[k + 1..])
    ensures Value(s[..k + 1], 10) == Value(s[..k], 10) * 10 + (s[k] - '0') as int
  {
    assert s[k..][1..] == s[k + 1..] && s[k..][0] == s[k];
    assert s[..k + 1][..k] == s[..k] && s[..k + 1] == s[..k] + [s[k]];
  }

  lemma NoMoreDigits(s: string, k: nat)
    requires k <= |s| && (k < |s| ==> !IsDecimal(s[k]))
    ensures s[..k] + DigitsOf(s[k..]) == s[..k]
  {
    assert DigitsOf(s[k..]) == [];
  }

  /** `atoi` on a terminated string whose digits fit an `int`. */
  method Atoi(str: array<char>, ghost n: nat) returns (r: int)
    requires Terminated(str, n) && Value(Unsigned(str[..n]), 10) <= INT_MAX
    ensures r == Parsed(str[..n])
  {
    var i := SkipBlanks(str, n);
    ghost var t := str[i..n];
    var sign := 1;
    if str[i] == '-' {
      sign := -1;
      i := i + 1;
    } else if str[i] == '+' {
      i := i + 1;
    }
    assert str[i..n] == if t != [] && (t[0] == '-' || t[0] == '+') then t[1..] else t;
    var ret := ReadDigits(str, i, n);
    r := ret * sign;
  }

  /** Reading what was written gives the number back, for every `int` above the least one. */
  lemma ParsedText(value: int)
    ensures Parsed(Text(value, 10)) == value
  {
    hide Parsed, Value, Numeral, DigitValue;
    var m := if value < 0 then -value else value;
    var sign, num := if value < 0 then Minus else Plain, Numeral(m, 10);
    NumeralDenotes(m, 10);
    AllDecimal(num);
    ParsedByParts("", sign, num, "");
    assert "" + (sign.Text() + (num + "")) == Text(value, 10);
  }

  lemma AllDecimal(s: string)
    requires forall i :: 0 <= i < |s| ==> DigitValue(s[i]) < 10
    ensures forall i :: 0 <= i < |s| ==> '0' <= s[i] <= '9'
  {
    forall i | 0 <= i < |s|
      ensures '0' <= s[i] <= '9'
    {
      assert DigitValue(s[i]) < 10;
    }
  }

  /** `atoi` after `itoa` in base 10. */
  method RoundTrip(value: int, str: array<char>) returns (r: int)
    requires -INT_MAX <= value <= INT_MAX && |Text(value, 10)| < str.Length
    modifies str
    ensures r == value
  {
    var start := Itoa(value, str, 10);
    ghost var n := |Text(value, 10)|;
    ParsedText(value);
    TextHasNoTerminator(value);
    assert forall i :: 0 <= i < n ==> str[i] == Text(value, 10)[i];
    r := Atoi(str, n);
  }

  lemma TextHasNoTerminator(value: int)
    ensures forall i :: 0 <= i < |Text(value, 10)| ==> Text(value, 10)[i] != '\0'
    ensures -INT_MAX <= value <= INT_MAX ==> Value(Unsigned(Text(value, 10)), 10) <= INT_MAX
  {
    var m := if value < 0 then -value else value;
    NumeralDenotes(m, 10);
    ParsedText(value);
    assert forall i :: 0 <= i < |Numeral(m, 10)| ==> DigitValue(Numeral(m, 10)[i]) < 10;
  }
}
