/** Unsigned decimal numerals, as fmt prints and fmt and strconv read them. */
module Decimal {
  import opened Prelude

  const MAX_INT := 0x7FFF_FFFF_FFFF_FFFF

  predicate IsDigit(c: char) {
    '0' <= c <= '9'
  }

  function DigitValue(c: char): (d: nat)
    requires IsDigit(c)
    ensures d < 10
  {
    c as int - '0' as int
  }

  predicate AllDigits(s: string) {
    forall k :: 0 <= k < |s| ==> IsDigit(s[k])
  }

  function Value(s: string): (n: nat)
    requires AllDigits(s)
  {
    if s == "" then 0 else 10 * Value(s[..|s| - 1]) + DigitValue(s[|s| - 1])
  }

  /** %d of a number that is not negative. */
  function Print(n: nat): (s: string)
    ensures s != "" && AllDigits(s)
  {
    if n < 10 then ['0' + n as char] else Print(n / 10) + ['0' + (n % 10) as char]
  }

  lemma {:induction false} ValueOfPrint(n: nat)
    ensures Value(Print(n)) == n
  {
    var s := Print(n);
    if n >= 10 {
      ValueOfPrint(n / 10);
      assert s[..|s| - 1] == Print(n / 10);
    } else {
      assert s[..|s| - 1] == "";
    }
  }

  lemma {:induction false} LeadingZero(s: string)
    requires AllDigits(s)
    ensures Value("0" + s) == Value(s)
  {
    if s == "" {
      assert "0" + s == "0" && "0"[..0] == "";
    } else {
      var init := s[..|s| - 1];
      LeadingZero(init);
      assert ("0" + s)[..|s|] == "0" + init;
    }
  }

  function Zeros(k: nat): string {
    if k == 0 then "" else "0" + Zeros(k - 1)
  }

  lemma ZeroMore(zeros: nat, digits: string)
    requires zeros > 0
    ensures Zeros(zeros) + digits == "0" + (Zeros(zeros - 1) + digits)
  {
  }

  lemma {:induction false} PaddedValue(digits: string, zeros: nat)
    requires AllDigits(digits)
    ensures AllDigits(Zeros(zeros) + digits) && Value(Zeros(zeros) + digits) == Value(digits)
  {
    if zeros == 0 {
      assert Zeros(0) + digits == digits;
    } else {
      var rest := Zeros(zeros - 1) + digits;
      PaddedValue(digits, zeros - 1);
      LeadingZero(rest);
      ZeroMore(zeros, digits);
    }
  }

  /** strconv.Atoi, and strconv.ParseInt in base 10, of a 64-bit int. */
  function Atoi(s: string): Option<int> {
    var signed := s != "" && (s[0] == '+' || s[0] == '-');
    var digits := if signed then s[1..] else s;
    if digits == "" || !AllDigits(digits) then None
    else
      var size: int := Value(digits);
      var n := if signed && s[0] == '-' then -size else size;
      if -MAX_INT - 1 <= n <= MAX_INT then Some(n) else None
  }

  /** What %d prints, Atoi reads back. */
  lemma AtoiOfPrint(n: nat)
    requires n <= MAX_INT
    ensures Atoi(Print(n)) == Some(n)
  {
    ValueOfPrint(n);
    assert IsDigit(Print(n)[0]);
  }

  lemma PrintOneMore(m: nat, c: char)
    requires m > 0 && IsDigit(c)
    ensures Print(10 * m + DigitValue(c)) == Print(m) + [c]
  {
    var n := 10 * m + DigitValue(c);
    assert n / 10 == m && n % 10 == DigitValue(c);
  }

  lemma PrintDigit(c: char)
    requires IsDigit(c)
    ensures Print(DigitValue(c)) == [c]
  {
  }

  lemma PaddedOneMore(k: nat, m: nat, c: char) returns (k': nat)
    requires IsDigit(c)
    ensures Zeros(k) + Print(m) + [c] == Zeros(k') + Print(10 * m + DigitValue(c))
  {
    if m == 0 {
      ZerosEnd(k);
      PrintDigit(c);
      k' := k + 1;
    } else {
      PrintOneMore(m, c);
      Regroup(Zeros(k), Print(m), [c]);
      k' := k;
    }
  }

  /** Every digit string is a printed number behind zeros. */
  lemma {:induction false} DigitsArePadded(s: string) returns (k: nat)
    requires s != "" && AllDigits(s)
    ensures s == Zeros(k) + Print(Value(s))
  {
    var init, c := s[..|s| - 1], s[|s| - 1];
    assert s == init + [c];
    if init == "" {
      k := 0;
      PrintDigit(c);
    } else {
      k := DigitsArePadded(init);
      k := PaddedOneMore(k, Value(init), c);
    }
  }

  lemma {:induction false} ZerosEnd(k: nat)
    ensures Zeros(k) + "0" == Zeros(k + 1)
  {
    if k == 0 {
    } else {
      ZerosEnd(k - 1);
      Regroup("0", Zeros(k - 1), "0");
    }
  }

  /** A sign or none, zeros, and a number as %d prints it. */
  predicate Spells(s: string, sign: string, zeros: nat, size: nat) {
    (sign == "" || sign == "+" || sign == "-") && s == sign + Zeros(zeros) + Print(size)
  }

  function Signed(sign: string, size: nat): int {
    if sign == "-" then 0 - size as int else size
  }

  lemma PlainDigits(digits: string)
    requires digits != "" && AllDigits(digits)
    ensures Atoi(digits) == if Value(digits) <= MAX_INT then Some(Value(digits)) else None
  {
    assert IsDigit(digits[0]);
  }

  lemma SignAndDigits(c: char, digits: string)
    requires digits != "" && AllDigits(digits) && (c == '+' || c == '-')
    ensures var n := Signed([c], Value(digits));
      Atoi([c] + digits) == if -MAX_INT - 1 <= n <= MAX_INT then Some(n) else None
  {
    var s := [c] + digits;
    assert s[0] == c && s[1..] == digits;
    assert [c] == "-" <==> c == '-';
  }

  lemma SpelledIsRead(s: string, sign: string, zeros: nat, size: nat)
    requires Spells(s, sign, zeros, size)
    ensures var n := Signed(sign, size);
      Atoi(s) == if -0x8000_0000_0000_0000 <= n <= 0x7FFF_FFFF_FFFF_FFFF then Some(n) else None
  {
    var digits := Zeros(zeros) + Print(size);
    PaddedValue(Print(size), zeros);
    ValueOfPrint(size);
    Regroup(sign, Zeros(zeros), Print(size));
    if sign == "" {
      assert s == digits;
      PlainDigits(digits);
    } else {
      assert sign == [sign[0]] && s == [sign[0]] + digits;
      SignAndDigits(sign[0], digits);
    }
  }

  /** What is read is a sign, or none, and digits. */
  lemma SignSplits(s: string) returns (sign: string, digits: string)
    requires Atoi(s).Some?
    ensures s == sign + digits && sign in {"", "+", "-"} && digits != "" && AllDigits(digits)
    ensures Atoi(s) == Some(Signed(sign, Value(digits)))
  {
    if s[0] == '+' || s[0] == '-' {
      sign, digits := [s[0]], s[1..];
      assert sign == "-" <==> s[0] == '-';
    } else {
      sign, digits := "", s;
    }
  }

  lemma ReadIsSpelled(s: string) returns (sign: string, zeros: nat, size: nat)
    requires Atoi(s).Some?
    ensures Spells(s, sign, zeros, size) && Atoi(s) == Some(Signed(sign, size))
    ensures -0x8000_0000_0000_0000 <= Atoi(s).value <= 0x7FFF_FFFF_FFFF_FFFF
  {
    var digits: string;
    sign, digits := SignSplits(s);
    size := Value(digits);
    zeros := DigitsArePadded(digits);
    Regroup(sign, Zeros(zeros), Print(size));
  }

  lemma SpelledInRange(s: string, n: int, sign: string, zeros: nat, size: nat)
    requires Spells(s, sign, zeros, size) && n == Signed(sign, size)
    requires -0x8000_0000_0000_0000 <= n <= 0x7FFF_FFFF_FFFF_FFFF
    ensures Atoi(s) == Some(n)
  {
    SpelledIsRead(s, sign, zeros, size);
  }

  /** Exactly the numbers so spelled, within 64 bits, are read, and read as what they spell. */
  lemma AtoiExactly(s: string, n: int)
    ensures Atoi(s) == Some(n) <==>
      && -0x8000_0000_0000_0000 <= n <= 0x7FFF_FFFF_FFFF_FFFF
      && exists sign: string, zeros: nat, size: nat :: Spells(s, sign, zeros, size) && n == Signed(sign, size)
  {
    if Atoi(s) == Some(n) {
      var sign, zeros, size := ReadIsSpelled(s);
      assert Spells(s, sign, zeros, size) && n == Signed(sign, size);
    } else if -0x8000_0000_0000_0000 <= n <= 0x7FFF_FFFF_FFFF_FFFF {
      forall sign: string, zeros: nat, size: nat | Spells(s, sign, zeros, size)
        ensures n != Signed(sign, size)
      {
        if n == Signed(sign, size) { SpelledInRange(s, n, sign, zeros, size); }
      }
    }
  }
}
