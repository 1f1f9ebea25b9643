/** Reading numbers back: `atoi`, and its round trips with the formatter. */
module Atoi {
  import opened Common
  import opened Format

  // ---------------------------------------------------------------------------------------------
  // Reading

  predicate IsXDigit(c: char) {
    '0' <= c <= '9' || 'A' <= c <= 'F' || 'a' <= c <= 'f'
  }

  function DigitValue(c: char): nat
    requires IsXDigit(c)
  {
    if '0' <= c <= '9' then (c - '0') as nat
    else if 'a' <= c <= 'f' then (c - 'a') as nat + 10
    else (c - 'A') as nat + 10
  }

  /** The arithmetic is unsigned and its result kept in a signed 32-bit integer. */
  function AddDigit(acc: int, base: nat, d: nat): int {
    Int32(acc * base + d)
  }

  function SkipSpaces(s: string): string {
    if s != "" && s[0] == ' ' then SkipSpaces(s[1..]) else s
  }

  /** Adds hexadecimal digits to `acc`, in either base, up to the first other character. */
  function ReadDigits(s: string, base: nat, acc: int): int
    decreases |s|
  {
    if s == "" || !IsXDigit(s[0]) then acc else ReadDigits(s[1..], base, AddDigit(acc, base, DigitValue(s[0])))
  }

  predicate HexPrefix(s: string) {
    |s| >= 2 && s[0] == '0' && (s[1] == 'x' || s[1] == 'X')
  }

  function ReadNumber(s: string): int {
    if HexPrefix(s) then ReadDigits(s[2..], 16, 0) else ReadDigits(s, 10, 0)
  }

  function Value(s: string): int {
    ReadNumber(SkipSpaces(s))
  }

  method Atoi(a: CString) returns (i: int)
    ensures i == Value(a)
  {
    hide AddDigit, DigitValue, IsXDigit;
    var k, base := 0, 10;
    while k < |a| && a[k] == ' '
      invariant k <= |a| && SkipSpaces(a) == SkipSpaces(a[k..])
    {
      k := k + 1;
    }
    assert SkipSpaces(a) == a[k..];
    if k + 1 < |a| && a[k] == '0' && (a[k + 1] == 'x' || a[k + 1] == 'X') {
      assert a[k..][2..] == a[k + 2..];
      base, k := 16, k + 2;
    }
    i := 0;
    while k < |a| && IsXDigit(a[k])
      invariant k <= |a| && Value(a) == ReadDigits(a[k..], base, i)
    {
      i := AddDigit(i, base, DigitValue(a[k]));
      assert a[k..][1..] == a[k + 1..];
      k := k + 1;
    }
  }

  // ---------------------------------------------------------------------------------------------
  // Reading what was written

  lemma {:induction false} SpacesSkipped(n: int, t: string)
    requires t == "" || t[0] != ' '
    ensures SkipSpaces(Repeat(' ', n) + t) == t
    decreases n
  {
    if n > 0 {
      assert (Repeat(' ', n) + t)[1..] == Repeat(' ', n - 1) + t;
      SpacesSkipped(n - 1, t);
    } else {
      assert Repeat(' ', n) + t == t;
    }
  }

  lemma {:induction false} ZerosRead(n: int, t: string, base: nat)
    ensures ReadDigits(Repeat('0', n) + t, base, 0) == ReadDigits(t, base, 0)
    decreases n
  {
    if n > 0 {
      assert (Repeat('0', n) + t)[1..] == Repeat('0', n - 1) + t;
      ZerosRead(n - 1, t, base);
    } else {
      assert Repeat('0', n) + t == t;
    }
  }

  /** The digit string of `v`, in either case. */
  function Cased(up: bool, s: string): string {
    if up then Upper(s) else s
  }

  lemma {:induction false} UpperAppend(a: string, b: string)
    ensures Upper(a + b) == Upper(a) + Upper(b)
  {
  }

  lemma CasedDigit(up: bool, d: nat)
    requires d < 16
    ensures var c := if up then UpperChar(HexDigit(d)) else HexDigit(d); IsXDigit(c) && DigitValue(c) == d
  {
  }

  lemma {:induction false} DigitsRead(v: nat, base: nat, up: bool, t: string)
    requires 2 <= base <= 16 && v < 0x8000_0000
    ensures ReadDigits(Cased(up, Digits(v, base)) + t, base, 0) == ReadDigits(t, base, v)
    decreases v
  {
    if v == 0 {
      assert Cased(up, "") + t == t;
    } else {
      var q, d := Quot(v, base), Rem(v, base);
      var c := if up then UpperChar(HexDigit(d)) else HexDigit(d);
      UpperAppend(Digits(q, base), [HexDigit(d)]);
      assert Cased(up, Digits(v, base)) == Cased(up, Digits(q, base)) + [c];
      Regroup(Cased(up, Digits(q, base)), [c], t);
      hide *;
      assert q < v;
      DigitsRead(q, base, up, [c] + t);
      DigitRead(v, base, up, t);
    }
  }

  lemma DigitRead(v: nat, base: nat, up: bool, t: string)
    requires 2 <= base <= 16 && v < 0x8000_0000
    ensures var h := HexDigit(Rem(v, base));
      ReadDigits([if up then UpperChar(h) else h] + t, base, Quot(v, base)) == ReadDigits(t, base, v)
  {
    var q, d := Quot(v, base), Rem(v, base);
    CasedDigit(up, d);
    assert AddDigit(q, base, d) == v by {
      assert base * q == q * base;
    }
    hide AddDigit, Quot, Rem, HexDigit, UpperChar, DigitValue, IsXDigit;
    var c := if up then UpperChar(HexDigit(d)) else HexDigit(d);
    assert ([c] + t)[1..] == t;
  }

  lemma SpacesEndNumber(n: int, base: nat, acc: int)
    ensures ReadDigits(Repeat(' ', n), base, acc) == acc
  {
  }

  /** Zeros, digits and trailing spaces. */
  lemma PlainRead(z: int, v: nat, base: nat, up: bool, b: int)
    requires 2 <= base <= 16 && v < 0x8000_0000
    ensures ReadDigits(Repeat('0', z) + Cased(up, Digits(v, base)) + Repeat(' ', b), base, 0) == v
  {
    var d := Cased(up, Digits(v, base));
    assert Repeat('0', z) + d + Repeat(' ', b) == Repeat('0', z) + (d + Repeat(' ', b));
    ZerosRead(z, d + Repeat(' ', b), base);
    DigitsRead(v, base, up, Repeat(' ', b));
    SpacesEndNumber(b, base, v);
  }

  lemma {:induction false} RepeatSum(c: char, m: nat, n: int)
    ensures Repeat(c, m) + Repeat(c, n) == Repeat(c, if n < 0 then m else m + n)
  {
    if m > 0 {
      RepeatSum(c, m - 1, n);
      assert Repeat(c, m) + Repeat(c, n) == [c] + (Repeat(c, m - 1) + Repeat(c, n));
    } else {
      assert "" + Repeat(c, n) == Repeat(c, n);
    }
  }

  lemma PaddedShape(spec: Spec, prefix: string, val: string) returns (a: nat, z: nat, b: nat)
    ensures Padded(spec, prefix, val) == Repeat(' ', a) + prefix + Repeat('0', z) + val + Repeat(' ', b)
  {
    var pad: nat := if spec.w > |prefix| + |val| then spec.w - |prefix| - |val| else 0;
    a := if !spec.left && !spec.zero then pad else 0;
    z := if !spec.left && spec.zero then pad else 0;
    b := if spec.left then pad else 0;
  }

  lemma {:induction false} UpperZeros(n: int, s: string)
    ensures Upper(Repeat('0', n) + s) == Repeat('0', n) + Upper(s)
    decreases n
  {
    if n > 0 {
      assert (Repeat('0', n) + s)[1..] == Repeat('0', n - 1) + s;
      UpperZeros(n - 1, s);
    } else {
      assert Repeat('0', n) + s == s && Repeat('0', n) + Upper(s) == Upper(s);
    }
  }

  /** Replaces the middle of a five-part text. */
  lemma Middle(a: string, sign: string, z: string, num: string, y: string, d: string, b: string)
    requires z + num == y + d
    ensures a + sign + z + num + b == a + sign + y + d + b
    ensures a + sign + z + num + b == a + (sign + (y + d + b))
    ensures a + sign + z + num + b == a + sign + (z + num + b)
  {
    assert a + sign + z + num + b == a + sign + (z + num) + b;
  }

  /** What is padded: leading zeros, which padding can only lengthen, and the digits. */
  lemma NumeralShape(v: nat, base: nat, p: int, up: bool, z: nat) returns (zeros: nat)
    requires 2 <= base <= 16
    ensures Repeat('0', z) + Cased(up, Numeral(v, base, p, false)) == Repeat('0', zeros) + Cased(up, Digits(v, base))
  {
    var d := Digits(v, base);
    var y := p - |d|;
    zeros := if y < 0 then z else z + y;
    UpperZeros(y, d);
    RepeatSum('0', z, y);
    Regroup(Repeat('0', z), Repeat('0', y), Cased(up, d));
    hide Repeat, Digits, Upper;
  }

  predicate AllDecimal(s: string) {
    forall i :: 0 <= i < |s| ==> '0' <= s[i] <= '9' || s[i] == ' '
  }

  lemma {:induction false} DigitsDecimal(v: nat, up: bool)
    ensures AllDecimal(Cased(up, Digits(v, 10)))
    ensures forall i :: 0 <= i < |Cased(up, Digits(v, 10))| ==> Cased(up, Digits(v, 10))[i] != ' '
    decreases v
  {
    if v > 0 {
      DigitsDecimal(Quot(v, 10), up);
    }
  }

  /** Spaces, zeros, decimal digits, spaces: the number is read. */
  lemma DecimalRead(a: nat, zeros: nat, v: nat, up: bool, b: nat)
    requires v < 0x8000_0000
    ensures Value(Repeat(' ', a) + Repeat('0', zeros) + Cased(up, Digits(v, 10)) + Repeat(' ', b)) == v
  {
    var d := Cased(up, Digits(v, 10));
    var body := Repeat('0', zeros) + d;
    var t := body + Repeat(' ', b);
    Regroup(Repeat(' ', a), body, Repeat(' ', b));
    Regroup(Repeat(' ', a), Repeat('0', zeros), d);
    PlainRead(zeros, v, 10, up, b);
    if body == "" {
      BlankRead(a, b);
      assert t == Repeat(' ', b);
    } else {
      DigitsDecimal(v, up);
      DecimalText(Repeat('0', zeros), d, Repeat(' ', b));
      SpacesSkipped(a, t);
    }
  }

  lemma BlankRead(a: nat, b: nat)
    ensures Value(Repeat(' ', a) + Repeat(' ', b)) == 0
  {
    RepeatSum(' ', a, b);
    SpacesSkipped(a + b, "");
    assert Repeat(' ', a + b) + "" == Repeat(' ', a + b);
  }

  /** Decimal digits followed by spaces do not look like a hexadecimal number. */
  lemma DecimalText(zeros: string, d: string, spaces: string)
    requires AllDecimal(zeros) && AllDecimal(d) && AllDecimal(spaces) && zeros + d != ""
    requires ' ' !in zeros && ' ' !in d
    ensures (zeros + d + spaces)[0] != ' ' && !HexPrefix(zeros + d + spaces)
  {
    var t := zeros + d + spaces;
    assert AllDecimal(t);
    assert t[0] == (zeros + d)[0];
  }

  /** A sign stops the reader before the first digit. */
  lemma SignRead(a: nat, sign: char, rest: string)
    requires sign == '-' || sign == '+'
    ensures Value(Repeat(' ', a) + [sign] + rest) == 0
  {
    var t := [sign] + rest;
    assert Repeat(' ', a) + [sign] + rest == Repeat(' ', a) + t;
    SpacesSkipped(a, t);
  }

  /** For every width, precision and flags, a formatted signed number below 2^31 reads back as itself exactly
      when no sign character was written, or it is zero. */
  lemma SignedRoundTrip(spec: Spec, v: int)
    requires var val := Signed(spec.size, v); -0x8000_0000 < val < 0x8000_0000
    ensures var val := Signed(spec.size, v);
      Value(FormatSigned(spec, v)) == val <==> val == 0 || (val > 0 && !spec.plus)
  {
    var val := Signed(spec.size, v);
    var s := WithPrecision(spec);
    var sign := SignPrefix(s, val < 0);
    var num := Numeral(Format.Abs(val), 10, s.p, false);
    var a, z, b := PaddedShape(s, sign, num);
    var zeros := NumeralShape(Format.Abs(val), 10, s.p, false, z);
    var d := Digits(Format.Abs(val), 10);
    Middle(Repeat(' ', a), sign, Repeat('0', z), num, Repeat('0', zeros), d, Repeat(' ', b));
    hide Repeat, Padded, Numeral, Digits, Signed;
    if sign == "-" || sign == "+" {
      assert sign == [sign[0]];
      SignRead(a, sign[0], Repeat('0', z) + num + Repeat(' ', b));
    } else {
      OneSpace(a, sign);
      DecimalRead(a + |sign|, zeros, val, false, b);
    }
  }

  lemma OneSpace(a: nat, sign: string)
    requires sign == " " || sign == ""
    ensures Repeat(' ', a) + sign == Repeat(' ', a + |sign|)
  {
    RepeatSum(' ', a, 1);
    assert Repeat(' ', 1) == " ";
    assert Repeat(' ', a) + "" == Repeat(' ', a);
  }

  /** For every width, precision and flags, an unsigned decimal number below 2^31 reads back as itself. */
  lemma UnsignedRoundTrip(spec: Spec, v: int)
    requires Unsigned(spec.size, v) < 0x8000_0000
    ensures Value(FormatUnsigned(spec, 10, false, v)) == Unsigned(spec.size, v)
  {
    var val := Unsigned(spec.size, v);
    var s := WithPrecision(spec);
    var num := Numeral(val, 10, s.p, false);
    var a, z, b := PaddedShape(s, "", num);
    var zeros := NumeralShape(val, 10, s.p, false, z);
    Middle(Repeat(' ', a), "", Repeat('0', z), num, Repeat('0', zeros), Digits(val, 10), Repeat(' ', b));
    hide Repeat, Padded, Numeral, Digits, Unsigned;
    assert Repeat(' ', a) + "" == Repeat(' ', a);
    DecimalRead(a, zeros, val, false, b);
  }

  /** So does one in alternate-form hexadecimal, in either case. */
  lemma HexRoundTrip(spec: Spec, up: bool, v: int)
    requires spec.alt && Unsigned(spec.size, v) < 0x8000_0000
    ensures Value(FormatUnsigned(spec, 16, up, v)) == Unsigned(spec.size, v)
  {
    var val := Unsigned(spec.size, v);
    var s := WithPrecision(spec);
    var num := Cased(up, Numeral(val, 16, s.p, false));
    var prefix := Cased(up, if val != 0 then "0x" else "");
    var a, z, b := PaddedShape(s, prefix, num);
    var zeros := NumeralShape(val, 16, s.p, up, z);
    var d := Cased(up, Digits(val, 16));
    var body := Repeat('0', zeros) + d + Repeat(' ', b);
    Middle(Repeat(' ', a), prefix, Repeat('0', z), num, Repeat('0', zeros), d, Repeat(' ', b));
    if val == 0 {
      assert Digits(0, 16) == Digits(0, 10) == "";
      assert Repeat(' ', a) + "" == Repeat(' ', a);
      DecimalRead(a, zeros, 0, up, b);
    } else {
      assert Upper("0x") == "0X";
      SpacesSkipped(a, prefix + body);
      assert (prefix + body)[2..] == body;
      PlainRead(zeros, val, 16, up, b);
    }
  }
}
