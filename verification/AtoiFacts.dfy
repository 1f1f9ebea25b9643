/** What `atoi` reads, in characters and numbers. */
module AtoiFacts {
  import opened Common
  import opened Format
  import opened FormatText
  import opened Atoi

  /** No digit of either base: the end of a number. */
  predicate EndsNumber(rest: string) {
    rest == "" || DigitOf(rest[0]) < 0
  }

  lemma {:induction false} DigitsRead(done: int, digits: string, rest: string, base: nat)
    requires 2 <= base <= 16 && EndsNumber(rest) && forall i :: 0 <= i < |digits| ==> 0 <= DigitOf(digits[i]) < base
    ensures ReadDigits(digits + rest, base, Int32(done)) == Int32(Horner(done, digits, base))
    decreases |digits|
  {
    hide Int32;
    if digits == "" {
      assert digits + rest == rest;
    } else {
      assert (digits + rest)[0] == digits[0] && (digits + rest)[1..] == digits[1..] + rest;
      Int32Step(done, base, DigitOf(digits[0]));
      DigitsRead(done * base + DigitOf(digits[0]), digits[1..], rest, base);
    }
  }

  /** Digit by digit from the front. */
  function Horner(done: int, digits: string, base: nat): int
    decreases |digits|
  {
    if digits == "" then done else Horner(done * base + DigitOf(digits[0]), digits[1..], base)
  }

  lemma {:induction false} HornerSnoc(done: int, digits: string, c: char, base: nat)
    ensures Horner(done, digits + [c], base) == Horner(done, digits, base) * base + DigitOf(c)
    decreases |digits|
  {
    if digits == "" {
      assert digits + [c] == [c];
    } else {
      assert (digits + [c])[1..] == digits[1..] + [c];
      HornerSnoc(done * base + DigitOf(digits[0]), digits[1..], c, base);
    }
  }

  lemma {:induction false} HornerIsValue(digits: string, base: nat)
    ensures Horner(0, digits, base) == ValueOf(digits, base)
  {
    if digits != "" {
      var front, last := digits[..|digits| - 1], digits[|digits| - 1];
      HornerIsValue(front, base);
      HornerSnoc(0, front, last, base);
      assert digits == front + [last];
    }
  }

  lemma NumberRead(digits: string, rest: string, base: nat)
    requires 2 <= base <= 16 && EndsNumber(rest) && forall i :: 0 <= i < |digits| ==> 0 <= DigitOf(digits[i]) < base
    ensures ReadDigits(digits + rest, base, 0) == Wrapped(ValueOf(digits, base))
  {
    assert Int32(0) == 0;
    hide Int32, ReadDigits;
    DigitsRead(0, digits, rest, base);
    HornerIsValue(digits, base);
    WrappedIs(ValueOf(digits, base));
  }

  /** Spaces, then decimal digits up to the first character that is no digit of either base: their value as a signed
      32-bit integer. No sign is read. */
  lemma AtoiDecimal(spaces: nat, digits: string, rest: string)
    requires EndsNumber(rest) && forall i :: 0 <= i < |digits| ==> '0' <= digits[i] <= '9'
    requires digits + rest != "" ==> (digits + rest)[0] != ' '
    requires !(|digits + rest| >= 2 && (digits + rest)[0] == '0' && (digits + rest)[1] in {'x', 'X'})
    ensures Value(Repeat(' ', spaces) + (digits + rest)) == Wrapped(ValueOf(digits, 10))
  {
    SpacesSkipped(spaces, digits + rest);
    DecimalDigits(digits);
    hide Repeat, SkipSpaces, ReadDigits, ValueOf;
    NumberRead(digits, rest, 10);
  }

  /** The same for hexadecimal digits of either case behind 0x or 0X. */
  lemma AtoiHexadecimal(spaces: nat, x: char, digits: string, rest: string)
    requires EndsNumber(rest) && x in {'x', 'X'} && forall i :: 0 <= i < |digits| ==> 0 <= DigitOf(digits[i]) < 16
    ensures Value(Repeat(' ', spaces) + (['0', x] + (digits + rest))) == Wrapped(ValueOf(digits, 16))
  {
    var s := ['0', x] + (digits + rest);
    assert s[2..] == digits + rest;
    SpacesSkipped(spaces, s);
    hide Repeat, SkipSpaces, ReadDigits, ValueOf;
    NumberRead(digits, rest, 16);
  }

  lemma DecimalDigits(digits: string)
    requires forall i :: 0 <= i < |digits| ==> '0' <= digits[i] <= '9'
    ensures forall i :: 0 <= i < |digits| ==> 0 <= DigitOf(digits[i]) < 10
  {
  }

  /** Modulo 2^32, from -2^31 on. */
  function Wrapped(v: int): int {
    (v + 0x8000_0000) % 0x1_0000_0000 - 0x8000_0000
  }

  lemma WrappedIs(v: int)
    ensures Wrapped(v) == Int32(v)
  {
  }
}
