/** Small vocabulary shared by the other modules: optional values and the few
    C++ text primitives that the sources lean on. */
module Text {

  datatype Option<+T> = None | Some(value: T)

  /** `std::isspace` in the classic locale. */
  predicate IsSpace(c: char) {
    c == ' ' || '\t' <= c <= '\r'
  }

  predicate IsDigit(c: char) {
    '0' <= c <= '9'
  }

  function SkipSpace(s: string): string {
    if s == [] || !IsSpace(s[0]) then s else SkipSpace(s[1..])
  }

  /** The number spelled by the leading digits of `s`, continuing from `acc`. */
  function LeadingNumber(s: string, acc: nat): nat {
    if s == [] || !IsDigit(s[0]) then acc
    else LeadingNumber(s[1..], acc * 10 + (s[0] as int - '0' as int))
  }

  /** `std::stoi` before its range check; None stands for `std::invalid_argument`. */
  function Stoi(s: string): Option<int> {
    var t := SkipSpace(s);
    var digits := if t != [] && (t[0] == '-' || t[0] == '+') then t[1..] else t;
    if digits == [] || !IsDigit(digits[0]) then None
    else
      var n: int := LeadingNumber(digits, 0);
      Some(if t[0] == '-' then -n else n)
  }

  // ------------------------------------------------------------ numbers as spelled

  const DIGITS := "0123456789"
  const BLANKS := " \t\n\U{0B}\U{0C}\r"

  ghost predicate AllIn(s: string, chars: string) {
    forall i | 0 <= i < |s| :: s[i] in chars
  }

  ghost function Digit(c: char): (d: nat)
    requires c in DIGITS
    ensures d < 10 && DIGITS[d] == c
  {
    var d: nat :| d < |DIGITS| && DIGITS[d] == c;
    d
  }

  lemma DigitIs(c: char)
    ensures IsDigit(c) <==> c in DIGITS
    ensures c in DIGITS ==> c as int - '0' as int == Digit(c)
  {
    if IsDigit(c) {
      assert DIGITS[c as int - '0' as int] == c;
    }
  }

  lemma DigitOf(d: nat)
    requires d < 10
    ensures DIGITS[d] in DIGITS && Digit(DIGITS[d]) == d
  {
  }

  lemma BlankIs(c: char)
    ensures IsSpace(c) <==> c in BLANKS
  {
    if IsSpace(c) {
      assert c == BLANKS[0] || c == BLANKS[1] || c == BLANKS[2] || c == BLANKS[3] || c == BLANKS[4] || c == BLANKS[5];
    }
  }

  /** What a row of digits stands for by place, behind `high`. */
  ghost function Decimal(digits: string, high: nat): nat
    requires AllIn(digits, DIGITS)
    decreases |digits|
  {
    if digits == "" then high
    else 10 * Decimal(digits[..|digits| - 1], high) + Digit(digits[|digits| - 1])
  }

  /** The string starts with the number: blanks, a sign, then as many digits as follow. */
  ghost predicate Spells(s: string, n: int) {
    exists blanks, sign, digits, rest :: SpelledBy(s, n, blanks, sign, digits, rest)
  }

  ghost predicate SpelledBy(s: string, n: int, blanks: string, sign: string, digits: string, rest: string) {
    && s == blanks + (sign + (digits + rest))
    && AllIn(blanks, BLANKS) && sign in {"", "+", "-"}
    && digits != "" && AllIn(digits, DIGITS) && (rest == "" || rest[0] !in DIGITS)
    && n == if sign == "-" then 0 - Decimal(digits, 0) else Decimal(digits, 0)
  }

  lemma AllInParts(s: string, chars: string)
    requires s != "" && AllIn(s, chars)
    ensures s[0] in chars && AllIn(s[1..], chars) && s[|s| - 1] in chars && AllIn(s[..|s| - 1], chars)
  {
  }

  lemma {:induction false} DecimalFront(digits: string, high: nat)
    requires digits != "" && AllIn(digits, DIGITS)
    ensures digits[0] in DIGITS && AllIn(digits[1..], DIGITS)
    ensures Decimal(digits, high) == Decimal(digits[1..], 10 * high + Digit(digits[0]))
    decreases |digits|
  {
    var k := |digits| - 1;
    AllInParts(digits, DIGITS);
    hide AllIn, DIGITS;
    if k == 0 {
      assert digits[..k] == "" && digits[1..] == "";
    } else {
      assert digits[1..][k - 1] == digits[k] && digits[..k][1..] == digits[1..][..k - 1];
      DecimalFront(digits[..k], high);
    }
  }

  /** Reading a digit moves what was read up by one place. */
  lemma LeadingStep(s: string, high: nat)
    requires s != "" && s[0] in DIGITS
    ensures LeadingNumber(s, high) == LeadingNumber(s[1..], 10 * high + Digit(s[0]))
  {
    DigitIs(s[0]);
  }

  lemma LeadingStops(s: string, high: nat)
    requires s == "" || s[0] !in DIGITS
    ensures LeadingNumber(s, high) == high
  {
    if s != "" {
      DigitIs(s[0]);
    }
  }

  lemma {:induction false} LeadingIsDecimal(digits: string, rest: string, high: nat)
    requires AllIn(digits, DIGITS) && (rest == "" || rest[0] !in DIGITS)
    ensures LeadingNumber(digits + rest, high) == Decimal(digits, high)
    decreases |digits|
  {
    hide LeadingNumber, DIGITS, AllIn;
    if digits == "" {
      assert digits + rest == rest;
      LeadingStops(rest, high);
    } else {
      var s := digits + rest;
      DecimalFront(digits, high);
      hide Decimal;
      assert s[0] == digits[0] && s[1..] == digits[1..] + rest;
      LeadingStep(s, high);
      LeadingIsDecimal(digits[1..], rest, 10 * high + Digit(digits[0]));
    }
  }

  /** Any string is a row of digits and a rest that does not start with one. */
  lemma {:induction false} DigitsEnd(s: string) returns (digits: string, rest: string)
    ensures s == digits + rest && AllIn(digits, DIGITS) && (rest == "" || rest[0] !in DIGITS)
    decreases |s|
  {
    if s == "" || s[0] !in DIGITS {
      digits, rest := "", s;
    } else {
      digits, rest := DigitsEnd(s[1..]);
      digits := [s[0]] + digits;
    }
  }

  lemma {:induction false} BlanksEnd(s: string) returns (blanks: string)
    ensures s == blanks + SkipSpace(s) && AllIn(blanks, BLANKS)
    decreases |s|
  {
    blanks := "";
    if s != "" && IsSpace(s[0]) {
      BlankIs(s[0]);
      blanks := BlanksEnd(s[1..]);
      blanks := [s[0]] + blanks;
    }
  }

  lemma {:induction false} SkipBlanks(blanks: string, rest: string)
    requires AllIn(blanks, BLANKS) && rest != "" && rest[0] !in BLANKS
    ensures SkipSpace(blanks + rest) == rest
    decreases |blanks|
  {
    if blanks == "" {
      assert blanks + rest == rest;
      BlankIs(rest[0]);
    } else {
      BlankIs(blanks[0]);
      assert (blanks + rest)[1..] == blanks[1..] + rest;
      SkipBlanks(blanks[1..], rest);
    }
  }

  /** `std::stoi` reads the number a string starts with, and throws exactly when
      there is none. */
  lemma StoiIff(s: string, n: int)
    ensures Stoi(s) == Some(n) <==> Spells(s, n)
  {
    if Stoi(s) == Some(n) {
      StoiSpells(s, n);
    }
    if Spells(s, n) {
      var blanks, sign, digits, rest :| SpelledBy(s, n, blanks, sign, digits, rest);
      SpelledIsRead(s, n, blanks, sign, digits, rest);
    }
  }

  lemma StoiSpells(s: string, n: int)
    requires Stoi(s) == Some(n)
    ensures Spells(s, n)
  {
    var t := SkipSpace(s);
    var blanks := BlanksEnd(s);
    var sign := if t[0] == '-' || t[0] == '+' then [t[0]] else "";
    var digits, rest := DigitsEnd(t[|sign|..]);
    assert t == sign + t[|sign|..];
    DigitIs(t[|sign|]);
    LeadingIsDecimal(digits, rest, 0);
    assert SpelledBy(s, n, blanks, sign, digits, rest);
  }

  lemma SpelledIsRead(s: string, n: int, blanks: string, sign: string, digits: string, rest: string)
    requires SpelledBy(s, n, blanks, sign, digits, rest)
    ensures Stoi(s) == Some(n)
  {
    AllInParts(digits, DIGITS);
    DigitIs(digits[0]);
    NoBlank(digits[0]);
    LeadingIsDecimal(digits, rest, 0);
    hide Decimal, AllIn, LeadingNumber, DIGITS, BLANKS;
    var t := sign + (digits + rest);
    if sign == "" {
      assert t == digits + rest && t[0] == digits[0];
    } else {
      NoBlank(sign[0]);
      assert t[0] == sign[0] && t[1..] == digits + rest;
    }
    SkipBlanks(blanks, t);
  }

  lemma NoBlank(c: char)
    requires c in DIGITS || c in "+-"
    ensures c !in BLANKS && IsDigit(c) == (c in DIGITS)
  {
    DigitIs(c);
    BlankIs(c);
  }

  lemma NoBlankDigits()
    ensures forall c | c in BLANKS || c in "+-" :: c !in DIGITS
    ensures '-' !in BLANKS && '+' !in BLANKS
  {
  }

  lemma StoiNone()
    ensures Stoi("") == None
  {
  }

  lemma LeadingOne(c: char, high: nat)
    requires c in DIGITS
    ensures LeadingNumber([c], high) == 10 * high + Digit(c)
  {
    LeadingStep([c], high);
    LeadingStops([], 10 * high + Digit(c));
  }

  lemma StoiOne(c: char)
    ensures Stoi([c]) == if c in DIGITS then Some(Digit(c)) else None
  {
    DigitIs(c);
    if c in DIGITS {
      LeadingOne(c, 0);
    } else {
      assert SkipSpace([c]) == if IsSpace(c) then [] else [c];
    }
  }

  lemma StoiTwo(c: char, d: char)
    ensures Stoi([c, d]) ==
      if c in DIGITS then Some(if d in DIGITS then 10 * Digit(c) + Digit(d) else Digit(c))
      else if d !in DIGITS then None
      else if c in BLANKS || c == '+' then Some(Digit(d))
      else if c == '-' then Some(0 - Digit(d))
      else None
  {
    BlankIs(c);
    if c in DIGITS {
      StoiDigits(c, d);
    } else {
      DigitIs(c);
      SkipsTo(c, d);
      DigitIs(d);
      if d in DIGITS {
        LeadingOne(d, 0);
      }
    }
  }

  lemma StoiDigits(c: char, d: char)
    requires c in DIGITS
    ensures Stoi([c, d]) == Some(if d in DIGITS then 10 * Digit(c) + Digit(d) else Digit(c))
  {
    assert [c, d][1..] == [d];
    NoBlank(c);
    BlankIs(c);
    LeadingStep([c, d], 0);
    if d in DIGITS {
      LeadingOne(d, Digit(c));
    } else {
      LeadingStops([d], Digit(c));
    }
    hide DIGITS, BLANKS, LeadingNumber;
  }

  lemma SkipsTo(c: char, d: char)
    ensures SkipSpace([c, d]) == if !IsSpace(c) then [c, d] else if !IsSpace(d) then [d] else []
    ensures d in DIGITS ==> !IsSpace(d)
    ensures [c, d][1..] == [d]
  {
    assert [c, d][1..] == [d] && [d][1..] == [];
    assert SkipSpace([d]) == if IsSpace(d) then [] else [d];
    assert SkipSpace([c, d]) == if IsSpace(c) then SkipSpace([d]) else [c, d];
    if d in DIGITS {
      NoBlank(d);
      BlankIs(d);
    }
  }

  /** The range check: otherwise it throws `std::out_of_range`. */
  predicate FitsInt(n: int) {
    -0x8000_0000 <= n <= 0x7FFF_FFFF
  }
}
