/**
 The calculator's evaluation (programs/calculator/calculator.c) and the conversions
 between numbers and text that it uses (programs/stdlib/src/stdlib.c).

 Signed overflow is undefined in C: numbers here are integers, and `Defined` says of a text
 that no number on the way leaves the 32-bit range.
 */
module Calculator {

  const INT_MAX := 2147483647
  const INT_MIN := -2147483648

  predicate InInt(n: int) { INT_MIN <= n <= INT_MAX }

  // -------------------------------------------------------- text and numbers

  predicate Digit(c: char) { '0' <= c <= '9' }

  function Atoi(s: string): (r: nat) {
    if s == "" then 0
    else if Digit(s[|s| - 1]) then Atoi(s[..|s| - 1]) * 10 + (s[|s| - 1] as int - '0' as int)
    else Atoi(s[..|s| - 1])
  }

  function DigitChar(d: nat): (c: char)
    requires d < 10
    ensures Digit(c) && c as int - '0' as int == d
  {
    ('0' as int + d) as char
  }

  /** Decimal digits, none for zero. */
  function Digits(n: nat): (s: string)
    ensures forall k :: 0 <= k < |s| ==> Digit(s[k])
    ensures (s == "") == (n == 0)
  {
    if n == 0 then "" else Digits(n / 10) + [DigitChar(n % 10)]
  }

  /** The text of a number, as `itoa` gives it. */
  function Printed(i: int): string {
    if i == 0 then "0" else if i > 0 then Digits(i) else "-" + Digits(-i)
  }

  lemma {:induction false} AtoiOfDigits(n: nat)
    ensures Atoi(Digits(n)) == n
  {
    if n != 0 {
      AtoiOfDigits(n / 10);
      assert Digits(n)[..|Digits(n)| - 1] == Digits(n / 10);
    }
  }

  /** How many digits a number has at most. */
  lemma {:induction false} DigitsBound(n: nat, k: nat, bound: nat)
    requires n < bound && bound == Power10(k)
    ensures |Digits(n)| <= k
    decreases k
  {
    if n != 0 {
      assert k > 0;
      DigitsBound(n / 10, k - 1, Power10(k - 1));
    }
  }

  function Power10(k: nat): (r: nat)
    ensures r > 0
  {
    if k == 0 then 1 else 10 * Power10(k - 1)
  }

  /** C's division and remainder, which truncate. */
  function TruncDiv(a: int, b: int): int
    requires b != 0
  {
    if (a >= 0) == (b > 0) then Abs(a) / Abs(b) else -(Abs(a) / Abs(b))
  }

  function TruncMod(a: int, b: int): int
    requires b != 0
  {
    a - TruncDiv(a, b) * b
  }

  function Abs(a: int): nat { if a < 0 then -a else a }

  /** `atoi`, on a buffer that holds a terminated string. */
  method AtoiC(str: array<char>, ghost length: nat) returns (result: nat)
    requires length < str.Length && str[length] == '\0' && '\0' !in str[..length]
    ensures result == Atoi(str[..length])
  {
    result := 0;
    var i := 0;
    while str[i] != '\0'
      invariant i <= length && result == Atoi(str[..i])
      decreases length - i
    {
      assert str[..i + 1][..i] == str[..i];
      if str[i] >= '0' && str[i] <= '9' {
        result := result * 10 + (str[i] as int - '0' as int);
      }
      i := i + 1;
    }
  }

  /** `itoa`: its buffer of 12 characters is enough for every int. */
  method ItoaC(n: int) returns (text: array<char>, loc: nat)
    requires InInt(n)
    ensures text.Length == 12 && loc <= 11 && text[11] == '\0' && text[loc..11] == Printed(n)
  {
    hide Digits, TruncMod, TruncDiv, Ends, Printed;
    text := EmptyText();
    var i := n;
    loc := 11;
    var neg := true;
    if i >= 0 {
      neg := false;
      i := -i;
    }
    ghost var all, tail := Digits(-i), "";
    TenDigits(-i);
    while i != 0
      invariant i <= 0 && |tail| == 11 - loc && fresh(text) && Ends(text, tail) && all == Digits(-i) + tail
      decreases -i
    {
      assert |all| == |Digits(-i)| + |tail| && Digits(-i) != "";
      NegativeDigit(i);
      DigitsStep(-i);
      var c := ('0' as int - TruncMod(i, 10)) as char;
      PutBefore(text, loc, c, tail);
      loc := loc - 1;
      Regroup(Digits(-TruncDiv(i, 10)), c, tail);
      tail := [c] + tail;
      i := TruncDiv(i, 10);
    }
    assert Digits(0) == "" && all == tail;
    PrintedParts(n);
    if loc == 11 {
      PutBefore(text, loc, '0', tail);
      loc := loc - 1;
      tail := "0";
    }
    if neg {
      PutBefore(text, loc, '-', tail);
      loc := loc - 1;
      tail := "-" + tail;
    }
    assert tail == Printed(n) && loc == 11 - |tail|;
    TextEnds(text, loc, Printed(n));
  }

  /** The sign, and the digits or a zero. */
  lemma PrintedParts(n: int)
    ensures n < 0 ==> Digits(-n) != "" && Printed(n) == "-" + Digits(-n)
    ensures n >= 0 ==> Printed(n) == if Digits(n) == "" then "0" else Digits(n)
  {
  }

  /** The text buffer holds `tail` at its end, terminated. */
  ghost predicate Ends(text: array<char>, tail: string)
    reads text
  {
    text.Length == 12 && |tail| <= 11 && text[11] == '\0' && text[11 - |tail|..11] == tail
  }

  method EmptyText() returns (text: array<char>)
    ensures fresh(text) && Ends(text, "")
  {
    text := new char[12](i => '\0');
  }

  method PutBefore(text: array<char>, loc: nat, c: char, ghost tail: string)
    requires Ends(text, tail) && 0 < loc == 11 - |tail|
    modifies text
    ensures Ends(text, [c] + tail)
  {
    text[loc - 1] := c;
  }

  lemma TextEnds(text: array<char>, loc: int, tail: string)
    requires Ends(text, tail) && loc == 11 - |tail|
    ensures text.Length == 12 && 0 <= loc <= 11 && text[11] == '\0' && text[loc..11] == tail
  {
  }

  lemma TenDigits(n: nat)
    requires n <= 2147483648
    ensures |Digits(n)| <= 10
  {
    assert Power10(10) == 10000000000;
    DigitsBound(n, 10, 10000000000);
  }

  lemma DigitsStep(n: nat)
    requires n > 0
    ensures Digits(n) == Digits(n / 10) + [DigitChar(n % 10)]
  {
  }

  lemma Regroup(a: string, c: char, b: string)
    ensures a + [c] + b == a + ([c] + b)
  {
  }

  /** On a number that is not positive, truncation gives minus the digit and minus the rest. */
  lemma NegativeDigit(i: int)
    requires i <= 0
    ensures TruncMod(i, 10) == -(-i % 10) && TruncDiv(i, 10) == -(-i / 10)
  {
  }

  // ---------------------------------------------------------------- evaluation

  predicate IsOperator(c: char) { c == '+' || c == '-' || c == '/' || c == '*' }

  /** `calculator_do_math`. */
  function DoMath(left: int, right: int, op: char): int {
    if op == '+' then left + right
    else if op == '-' then left - right
    else if op == '*' then left * right
    else if op == '/' && right != 0 then TruncDiv(left, right)
    else 0
  }

  /** Where the last operator is, if there is one. */
  function LastOperator(s: string): (p: int)
    ensures -1 <= p < |s| && (p >= 0 ==> IsOperator(s[p])) && forall k :: p < k < |s| ==> !IsOperator(s[k])
  {
    if s == "" then -1 else if IsOperator(s[|s| - 1]) then |s| - 1 else LastOperator(s[..|s| - 1])
  }

  /** The value of a text: operators associate to the left and have no precedence. */
  function Value(s: string): int {
    var p := LastOperator(s);
    if p < 0 then Atoi(s) else DoMath(Value(s[..p]), Atoi(s[p + 1..]), s[p])
  }

  /** No number on the way to the value leaves the range of int. */
  predicate Defined(s: string) {
    var p := LastOperator(s);
    && InInt(Atoi(s[p + 1..])) && InInt(Value(s))
    && (p >= 0 ==> Defined(s[..p]))
  }

  lemma LastOperatorIs(s: string, p: int)
    requires -1 <= p < |s| && (p >= 0 ==> IsOperator(s[p])) && forall k :: p < k < |s| ==> !IsOperator(s[k])
    ensures LastOperator(s) == p
  {
  }

  lemma ValueSplits(s: string, p: int)
    requires LastOperator(s) == p
    ensures Value(s) == if p < 0 then Atoi(s) else DoMath(Value(s[..p]), Atoi(s[p + 1..]), s[p])
  {
    hide Atoi, LastOperator, DoMath;
  }

  lemma DefinedSplits(s: string, p: int)
    requires LastOperator(s) == p
    ensures Defined(s) <==> InInt(Atoi(s[p + 1..])) && InInt(Value(s)) && (p >= 0 ==> Defined(s[..p]))
  {
    hide Atoi, LastOperator, Value;
  }

  lemma DigitsEvaluate(n: nat, s: string)
    requires s == Digits(n)
    ensures Value(s) == n && (Defined(s) <==> InInt(n))
  {
    hide Atoi, LastOperator, Digits, Value, Defined, DoMath;
    LastOperatorIs(s, -1);
    AtoiOfDigits(n);
    ValueSplits(s, -1);
    DefinedSplits(s, -1);
    assert s[0..] == s;
  }

  lemma NegativeEvaluates(n: nat)
    ensures Value("-" + Digits(n)) == 0 - n && (Defined("-" + Digits(n)) <==> InInt(n))
  {
    hide Atoi, LastOperator, Digits, Value, Defined;
    var s := "-" + Digits(n);
    LastOperatorIs(s, 0);
    AtoiOfDigits(n);
    ValueSplits(s, 0);
    DefinedSplits(s, 0);
    assert s[1..] == Digits(n) && s[..0] == "" == Digits(0) by { EmptyDigits(); }
    DigitsEvaluate(0, s[..0]);
  }

  lemma PrintedNumber(n: nat)
    ensures Atoi(Printed(n)) == n && forall k :: 0 <= k < |Printed(n)| ==> !IsOperator(Printed(n)[k])
  {
    AtoiOfDigits(n);
    if n == 0 { assert "0"[..0] == ""; }
  }

  /** `q` is the quotient of `a` and `b` without its fraction (section 6.5.5 of ISO/IEC 9899:2011). */
  predicate Truncates(a: int, b: nat, q: int) {
    if a >= 0 then q >= 0 && 0 <= a - q * b < b else q <= 0 && 0 <= q * b - a < b
  }

  lemma TruncDivTruncates(a: int, b: nat)
    requires b > 0
    ensures Truncates(a, b, TruncDiv(a, b))
  {
    var m := Abs(a);
    var q := m / b;
    QuotientOf(m, b);
    if a < 0 {
      assert TruncDiv(a, b) == -q;
      Negated(q, b);
    }
  }

  lemma QuotientOf(m: nat, b: nat)
    requires b > 0
    ensures m / b >= 0 && 0 <= m - m / b * b < b
  {
  }

  lemma Negated(q: int, b: nat)
    ensures -q * b == -(q * b)
  {
  }

  lemma LastOperand(s: string, op: char, n: nat)
    requires IsOperator(op)
    ensures Value(s + [op] + Printed(n)) == DoMath(Value(s), n, op)
  {
    hide Atoi, LastOperator, Printed, Value, DoMath;
    var text := s + [op] + Printed(n);
    PrintedNumber(n);
    LastOperatorIs(text, |s|);
    ValueSplits(text, |s|);
    assert text[..|s|] == s && text[|s| + 1..] == Printed(n);
  }

  /** Each operator does to the value of all that stands before it what its sign says. */
  lemma OperatorsCalculate(s: string, n: nat)
    ensures Value(s + "+" + Printed(n)) == Value(s) + n
    ensures Value(s + "-" + Printed(n)) == Value(s) - n
    ensures Value(s + "*" + Printed(n)) == Value(s) * n
    ensures var q := Value(s + "/" + Printed(n)); if n == 0 then q == 0 else Truncates(Value(s), n, q)
  {
    hide Value, Printed;
    LastOperand(s, '+', n);
    LastOperand(s, '-', n);
    LastOperand(s, '*', n);
    LastOperand(s, '/', n);
    if n != 0 { TruncDivTruncates(Value(s), n); }
  }

  lemma EmptyDigits()
    ensures Digits(0) == ""
  {
  }

  /** What was printed evaluates to itself; overflow spares all but the least int. */
  lemma PrintedEvaluatesToItself(i: int)
    ensures Value(Printed(i)) == i
    ensures InInt(i) ==> (Defined(Printed(i)) <==> i != INT_MIN)
  {
    if i == 0 {
      ZeroEvaluates();
    } else if i > 0 {
      DigitsEvaluate(i, Digits(i));
    } else {
      NegativeEvaluates(-i);
    }
  }

  lemma ZeroEvaluates()
    ensures Value("0") == 0 && Defined("0")
  {
    LastOperatorIs("0", -1);
    assert "0"[..0] == "" && "0"[0..] == "0";
    assert Atoi("0") == 0;
  }

  /** 124 characters from `i` on are all of one operand: the buffer has no room for its terminator. */
  ghost predicate OperandFills(text: string, i: nat) {
    i + 124 <= |text| && forall k :: i <= k < i + 124 ==> !IsOperator(text[k])
  }

  lemma OneMore(text: string, i: nat)
    requires i < |text|
    ensures LastOperator(text[..i + 1]) == if IsOperator(text[i]) then i else LastOperator(text[..i])
  {
    assert text[..i + 1][..i] == text[..i];
  }

  /** The buffer of 124 characters holds `s` and then only zeros. */
  ghost predicate Holds(buf: array<char>, s: string)
    reads buf
  {
    && buf.Length == 124 && |s| < 124 && buf[..|s|] == s && '\0' !in s
    && forall k :: |s| <= k < 124 ==> buf[k] == '\0'
  }

  method EmptyBuffer() returns (buf: array<char>)
    ensures fresh(buf) && Holds(buf, "")
  {
    buf := new char[124](i => '\0');
  }

  method Push(buf: array<char>, index: nat, c: char, ghost s: string)
    requires Holds(buf, s) && index == |s| < 123 && c != '\0'
    modifies buf
    ensures Holds(buf, s + [c])
  {
    buf[index] := c;
  }

  method NumberIn(buf: array<char>, ghost s: string) returns (n: nat)
    requires Holds(buf, s)
    ensures n == Atoi(s)
  {
    n := AtoiC(buf, |s|);
  }

  /** The parser's variables after the first `i` characters, the last operator of which is at `p`. */
  ghost predicate Parsed(text: string, i: nat, p: int, parsingRight: bool, left: int, op: char) {
    && i <= |text| && -1 <= p < i && LastOperator(text[..i]) == p && parsingRight == (p >= 0)
    && op == (if p >= 0 then text[p] else '\0') && (p >= 0 ==> left == Value(text[..p]))
  }

  lemma ParsedNothing(text: string)
    ensures Parsed(text, 0, -1, false, 0, '\0')
  {
  }

  /** An operator ends the operand before it. */
  lemma OperatorStep(text: string, i: nat, p: int, parsingRight: bool, left: int, op: char)
    requires i < |text| && IsOperator(text[i]) && Parsed(text, i, p, parsingRight, left, op)
    ensures 0 <= p + 1 <= i
    ensures var number := Atoi(text[p + 1..i]);
            Parsed(text, i + 1, i, true, if parsingRight then DoMath(left, number, op) else number, text[i])
  {
    hide Value, Atoi, LastOperator, DoMath;
    OneMore(text, i);
    PrefixValue(text, i, p);
  }

  /** Any other character belongs to the operand. */
  lemma OperandStep(text: string, i: nat, p: int, parsingRight: bool, left: int, op: char)
    requires i < |text| && !IsOperator(text[i]) && Parsed(text, i, p, parsingRight, left, op)
    ensures 0 <= p + 1 <= i && Parsed(text, i + 1, p, parsingRight, left, op)
    ensures text[p + 1..i] + [text[i]] == text[p + 1..i + 1]
    ensures i - p >= 124 ==> OperandFills(text, i - 123)
  {
    hide Value, Atoi, LastOperator, OperandFills, DoMath, IsOperator;
    OneMore(text, i);
    if i - p >= 124 { LongOperand(text, i, p); }
    SliceGrows(text, p + 1, i);
  }

  lemma SliceGrows(text: string, from: int, i: nat)
    requires 0 <= from <= i < |text|
    ensures text[from..i] + [text[i]] == text[from..i + 1]
  {
  }

  lemma LongOperand(text: string, i: nat, p: int)
    requires i < |text| && !IsOperator(text[i]) && LastOperator(text[..i]) == p && i - p >= 124
    ensures OperandFills(text, i - 123)
  {
    forall k | i - 123 <= k < i + 1 ensures !IsOperator(text[k]) {
      if k < i { assert text[..i][k] == text[k]; }
    }
  }

  /** The end of the text ends the last operand. */
  lemma LastStep(text: string, p: int, parsingRight: bool, left: int, op: char)
    requires Parsed(text, |text|, p, parsingRight, left, op)
    ensures 0 <= p + 1 <= |text| && (p >= 0 <==> parsingRight) && (p >= 0 ==> IsOperator(op)) && (p < 0 ==> op == '\0')
    ensures var number := Atoi(text[p + 1..]); Value(text) == if p >= 0 then DoMath(left, number, op) else number
  {
    hide Value, Atoi, DoMath;
    assert text[..|text|] == text;
    PrefixValue(text, |text|, p);
  }

  /** An operand of 124 characters cannot be behind the last operator if fewer than that are there. */
  lemma ShortOperand(text: string, i: nat, p: int, parsingRight: bool, left: int, op: char)
    requires Parsed(text, i, p, parsingRight, left, op) && i - p <= 124
    requires forall j: nat :: j + 124 < i ==> !OperandFills(text, j)
    ensures forall j: nat :: j + 124 <= i ==> !OperandFills(text, j)
  {
    if p >= 0 { assert text[..i][p] == text[p]; }
  }

  /**
   `calculator_equals`, up to the text that it sets; `overrun` is where an operand of 124
   characters or more would be written past its buffer.
   */
  method CalculatorEquals(text: string) returns (overrun: bool, result: int)
    requires '\0' !in text
    ensures overrun <==> exists i: nat :: OperandFills(text, i)
    ensures !overrun ==> result == Value(text)
  {
    hide Value, Atoi, LastOperator, DoMath, Holds, OperandFills, Parsed, IsOperator;
    var parsingRight := false;
    var numberStr := EmptyBuffer();
    var index := 0;
    var leftNumber := 0;
    var currentOp := '\0';
    ghost var p := -1;
    ParsedNothing(text);
    assert text[0..0] == "";
    NoneBefore(text);
    for i := 0 to |text|
      invariant 0 <= p + 1 <= i && index == i - p - 1 && fresh(numberStr) && Holds(numberStr, text[p + 1..i])
      invariant Parsed(text, i, p, parsingRight, leftNumber, currentOp)
      invariant forall j: nat :: j + 124 <= i ==> !OperandFills(text, j)
    {
      if IsOperator(text[i]) {
        OperatorStep(text, i, p, parsingRight, leftNumber, currentOp);
        var number := NumberIn(numberStr, text[p + 1..i]);
        leftNumber := if parsingRight then DoMath(leftNumber, number, currentOp) else number;
        parsingRight := true;
        currentOp := text[i];
        numberStr := EmptyBuffer();
        index := 0;
        p := i;
        assert text[p + 1..i + 1] == "";
      } else {
        OperandStep(text, i, p, parsingRight, leftNumber, currentOp);
        if index >= 123 {
          return true, 0;
        }
        Push(numberStr, index, text[i], text[p + 1..i]);
        index := index + 1;
      }
      ShortOperand(text, i + 1, p, parsingRight, leftNumber, currentOp);
    }
    NoneAfter(text);
    LastStep(text, p, parsingRight, leftNumber, currentOp);
    assert text[p + 1..|text|] == text[p + 1..];
    var number := NumberIn(numberStr, text[p + 1..]);
    overrun := false;
    OperatorIsNotNull(currentOp);
    if currentOp != '\0' {
      result := DoMath(leftNumber, number, currentOp);
    } else {
      result := number;
    }
  }

  lemma NoneBefore(text: string)
    ensures forall j: nat :: j + 124 <= 0 ==> !OperandFills(text, j)
  {
  }

  lemma NoneAfter(text: string)
    ensures forall j: nat :: j + 124 > |text| ==> !OperandFills(text, j)
  {
  }

  lemma OperatorIsNotNull(op: char)
    ensures IsOperator(op) ==> op != '\0'
  {
  }

  lemma PrefixValue(text: string, i: nat, p: int)
    requires i <= |text| && LastOperator(text[..i]) == p
    ensures Value(text[..i]) ==
            if p < 0 then Atoi(text[p + 1..i]) else DoMath(Value(text[..p]), Atoi(text[p + 1..i]), text[p])
  {
    hide Value, Atoi, LastOperator, DoMath;
    ValueSplits(text[..i], p);
    if p >= 0 {
      assert text[..i][..p] == text[..p] && text[..i][p + 1..] == text[p + 1..i];
    }
  }
}
