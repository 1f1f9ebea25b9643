/** What formatted text says, conversion by conversion: digits and their value, signs, prefixes, padding and
    narrowing, each in numbers and characters. */
module FormatText {
  import opened Common
  import opened Format

  // ---------------------------------------------------------------------------------------------
  // Digits

  /** The value of a digit in either case; -1 for any other character. */
  function DigitOf(c: char): int {
    if '0' <= c <= '9' then c as int - 48
    else if 'a' <= c <= 'f' then c as int - 87
    else if 'A' <= c <= 'F' then c as int - 55
    else -1
  }

  /** Positional value, most significant digit first. */
  function ValueOf(digits: string, base: nat): int {
    if digits == "" then 0 else ValueOf(digits[..|digits| - 1], base) * base + DigitOf(digits[|digits| - 1])
  }

  /** Digits of the base, letters in one case only. */
  ghost predicate AreDigits(digits: string, base: nat, upper: bool) {
    forall i :: 0 <= i < |digits| ==>
      0 <= DigitOf(digits[i]) < base && if upper then digits[i] < 'a' else digits[i] < 'A' || 'a' <= digits[i]
  }

  /** The numeral of `v` with at least `least` digits and no zeros in front of those that are needed; in the octal
      alternate form with one zero in front in any case. */
  ghost predicate IsNumeral(digits: string, v: nat, base: nat, upper: bool, least: nat, zeroFirst: bool) {
    && AreDigits(digits, base, upper) && ValueOf(digits, base) == v
    && |digits| >= least
    && if zeroFirst then
         && digits != "" && digits[0] == '0'
         && (|digits| > least && |digits| > 1 ==> digits[1] != '0')
       else |digits| > least ==> digits[0] != '0'
  }

  lemma HexDigitIs(d: nat)
    requires d < 16
    ensures DigitOf(HexDigit(d)) == d && (HexDigit(d) < 'A' || 'a' <= HexDigit(d)) && (HexDigit(d) == '0' <==> d == 0)
    ensures DigitOf(UpperChar(HexDigit(d))) == d && UpperChar(HexDigit(d)) < 'a'
    ensures UpperChar(HexDigit(d)) == '0' <==> d == 0
  {
  }

  lemma DigitsSnoc(s: string, c: char, base: nat, upper: bool)
    requires AreDigits(s, base, upper) && AreDigits([c], base, upper)
    ensures AreDigits(s + [c], base, upper) && ValueOf(s + [c], base) == ValueOf(s, base) * base + DigitOf(c)
  {
    assert (s + [c])[..|s|] == s;
    assert [c][0] == c;
  }

  /** The digits of a number have its value, and no zero in front. */
  lemma {:induction false} DigitsMean(v: nat, base: nat)
    requires 2 <= base <= 16
    ensures var s := Digits(v, base);
      AreDigits(s, base, false) && ValueOf(s, base) == v && (s == "" <==> v == 0) && (s != "" ==> s[0] != '0')
    decreases v
  {
    if v > 0 {
      DigitsMean(Quot(v, base), base);
      DigitsStep(v, base, Digits(Quot(v, base), base));
    } else {
      assert Digits(0, base) == "";
    }
  }

  lemma DigitsStep(v: nat, base: nat, front: string)
    requires 2 <= base <= 16 && v > 0 && front == Digits(Quot(v, base), base)
    requires AreDigits(front, base, false) && ValueOf(front, base) == Quot(v, base)
    requires (front == "" <==> Quot(v, base) == 0) && (front != "" ==> front[0] != '0')
    ensures var s := Digits(v, base);
      AreDigits(s, base, false) && ValueOf(s, base) == v && s != "" && s[0] != '0'
  {
    var c := HexDigit(Rem(v, base));
    assert Digits(v, base) == front + [c];
    HexDigitIs(Rem(v, base));
    assert Quot(v, base) == 0 ==> Rem(v, base) == v;
    hide Digits, Quot, Rem, HexDigit, ValueOf;
    DigitsSnoc(front, c, base, false);
  }

  lemma FrontAndLast(s: string, base: nat)
    requires s != "" && AreDigits(s, base, false)
    ensures AreDigits(s[..|s| - 1], base, false) && AreDigits([s[|s| - 1]], base, false)
  {
  }

  lemma ZerosInFront(n: int, s: string, base: nat)
    requires 2 <= base <= 16 && AreDigits(s, base, false)
    ensures AreDigits(Repeat('0', n) + s, base, false) && ValueOf(Repeat('0', n) + s, base) == ValueOf(s, base)
  {
    OnlyZeros(if n > 0 then n else 0, base);
    assert n <= 0 ==> Repeat('0', n) == Repeat('0', 0);
    hide Repeat, AreDigits, ValueOf;
    NothingInFront(Repeat('0', n), s, base);
  }

  lemma {:induction false} NothingInFront(zeros: string, s: string, base: nat)
    requires 2 <= base <= 16 && AreDigits(zeros, base, false) && ValueOf(zeros, base) == 0 && AreDigits(s, base, false)
    ensures AreDigits(zeros + s, base, false) && ValueOf(zeros + s, base) == ValueOf(s, base)
  {
    if s == "" {
      assert zeros + s == zeros;
    } else {
      hide ValueOf, AreDigits, DigitOf;
      var front, last := s[..|s| - 1], s[|s| - 1];
      FrontAndLast(s, base);
      NothingInFront(zeros, front, base);
      DigitsSnoc(front, last, base, false);
      DigitsSnoc(zeros + front, last, base, false);
      assert s == front + [last];
      Regroup(zeros, front, [last]);
    }
  }

  lemma {:induction false} OnlyZeros(n: nat, base: nat)
    requires 2 <= base
    ensures AreDigits(Repeat('0', n), base, false) && ValueOf(Repeat('0', n), base) == 0
  {
    if n > 0 {
      hide ValueOf, Repeat;
      OnlyZeros(n - 1, base);
      DigitsSnoc(Repeat('0', n - 1), '0', base, false);
      assert Repeat('0', n) == Repeat('0', n - 1) + ['0'];
      assert 0 * base + 0 == 0;
    }
  }

  /** The numerals of the formatter. */
  lemma NumeralMeans(v: nat, base: nat, precision: nat, octal: bool)
    requires 2 <= base <= 16
    ensures IsNumeral(Numeral(v, base, precision, octal), v, base, false, precision, octal)
  {
    hide AreDigits, ValueOf, DigitOf;
    var d := Digits(v, base);
    var full := Repeat('0', precision - |d|) + d;
    DigitsMean(v, base);
    ZerosInFront(precision - |d|, d, base);
    ZerosInFront(1, full, base);
    assert Repeat('0', 1) == "0";
  }

  lemma UpperDigit(c: char, base: nat)
    requires 2 <= base <= 16 && AreDigits([c], base, false)
    ensures AreDigits([UpperChar(c)], base, true) && DigitOf(UpperChar(c)) == DigitOf(c)
    ensures UpperChar(c) == '0' <==> c == '0'
  {
    assert [c][0] == c;
  }

  lemma UpperSnoc(front: string, c: char)
    ensures Upper(front + [c]) == Upper(front) + [UpperChar(c)]
  {
  }

  lemma {:induction false} UpperMeans(s: string, base: nat)
    requires 2 <= base <= 16 && AreDigits(s, base, false)
    ensures AreDigits(Upper(s), base, true) && ValueOf(Upper(s), base) == ValueOf(s, base)
  {
    if s != "" {
      hide ValueOf, DigitOf, UpperChar, Upper, AreDigits;
      var front, last := s[..|s| - 1], s[|s| - 1];
      FrontAndLast(s, base);
      assert s == front + [last];
      UpperSnoc(front, last);
      UpperDigit(last, base);
      UpperMeans(front, base);
      DigitsSnoc(front, last, base, false);
      DigitsSnoc(Upper(front), UpperChar(last), base, true);
    }
  }

  lemma UpperZeros(s: string)
    ensures forall i :: 0 <= i < |s| ==> (Upper(s)[i] == '0' <==> s[i] == '0')
  {
  }

  lemma UpperNumeral(s: string, v: nat, base: nat, least: nat, zeroFirst: bool)
    requires 2 <= base <= 16 && IsNumeral(s, v, base, false, least, zeroFirst)
    ensures IsNumeral(Upper(s), v, base, true, least, zeroFirst)
  {
    UpperMeans(s, base);
    UpperZeros(s);
  }

  // ---------------------------------------------------------------------------------------------
  // Written directives

  /** A width or precision: not stated, a number, or a star for the next argument. */
  datatype Amount = Unstated | Number(digits: string) | Star

  datatype Directive = Directive(flags: string, width: Amount, dot: bool, precision: Amount, size: string, conv: char)

  function AmountText(n: Amount): string {
    match n
    case Unstated => ""
    case Number(digits) => digits
    case Star => "*"
  }

  /** How a directive stands in a format, from the percent sign to the conversion character. */
  function Written(d: Directive): string {
    "%" + d.flags + AmountText(d.width) + (if d.dot then "." + AmountText(d.precision) else "") + d.size + [d.conv]
  }

  predicate AllDecimal(s: string) {
    forall i :: 0 <= i < |s| ==> '0' <= s[i] <= '9'
  }

  predicate IsSize(size: string) {
    size in ["", "hh", "h", "l", "ll", "j", "z", "t", "L"]
  }

  predicate Proper(d: Directive) {
    && (forall i :: 0 <= i < |d.flags| ==> d.flags[i] in "-+ #0")
    && (d.width.Number? ==> d.width.digits != "" && d.width.digits[0] != '0' && AllDecimal(d.width.digits))
    && (d.precision.Number? ==> d.precision.digits != "" && AllDecimal(d.precision.digits))
    && IsSize(d.size)
    && d.conv in "diuoxXbBpsc"
  }

  /** Left-justified: asked for by the flag, or by a negative width argument. */
  predicate IsLeft(d: Directive, args: Args, a: nat) {
    '-' in d.flags || (d.width.Star? && args(a).i < 0)
  }

  function WidthOf(d: Directive, args: Args, a: nat): int {
    match d.width
    case Unstated => 0
    case Number(digits) => ValueOf(digits, 10)
    case Star => if args(a).i < 0 then -args(a).i else args(a).i
  }

  /** Argument of a star in the precision. */
  function SecondArg(d: Directive, a: nat): nat {
    if d.width.Star? then a + 1 else a
  }

  /** -1 when there is none; a dot alone means 0, a negative argument none. */
  function PrecisionOf(d: Directive, args: Args, a: nat): int {
    if !d.dot then -1
    else match d.precision
      case Unstated => 0
      case Number(digits) => ValueOf(digits, 10)
      case Star => if args(SecondArg(d, a)).i < 0 then -1 else args(SecondArg(d, a)).i
  }

  /** Argument of the conversion itself. */
  function ValueArg(d: Directive, a: nat): nat {
    if d.dot && d.precision.Star? then SecondArg(d, a) + 1 else SecondArg(d, a)
  }

  /** The argument as the type that the size names: 8 bits for hh, 16 for h, 64 for ll, j and L, 32 otherwise. */
  function UnsignedOf(size: string, v: int): nat {
    if size == "hh" then v % 0x100
    else if size == "h" then v % 0x1_0000
    else if size == "ll" || size == "j" || size == "L" then v % 0x1_0000_0000_0000_0000
    else v % 0x1_0000_0000
  }

  function SignedOf(size: string, v: int): int {
    var u := UnsignedOf(size, v);
    if size == "hh" then (if u < 0x80 then u else u - 0x100)
    else if size == "h" then (if u < 0x8000 then u else u - 0x1_0000)
    else if size == "ll" || size == "j" || size == "L" then
      (if u < 0x8000_0000_0000_0000 then u else u - 0x1_0000_0000_0000_0000)
    else if u < 0x8000_0000 then u else u - 0x1_0000_0000
  }

  function BaseOf(conv: char): nat {
    match conv
    case 'o' => 8
    case 'x' => 16
    case 'X' => 16
    case 'p' => 16
    case 'b' => 2
    case 'B' => 2
    case _ => 10
  }

  // ---------------------------------------------------------------------------------------------
  // What they stand for

  /** `text` is the prefix and the body, as wide as asked for: with spaces behind, zeros between, or spaces ahead. */
  ghost predicate InField(text: string, prefix: string, body: string, left: bool, zero: bool, w: int) {
    var front := |prefix| + |body|;
    var pad := |text| - front;
    && |text| == (if w > front then w else front)
    && if left then text[..front] == prefix + body && forall i :: front <= i < |text| ==> text[i] == ' '
       else if zero then
         && text[..|prefix|] == prefix && text[|prefix| + pad..] == body
         && forall i :: |prefix| <= i < |prefix| + pad ==> text[i] == '0'
       else text[pad..] == prefix + body && forall i :: 0 <= i < pad ==> text[i] == ' '
  }

  lemma PaddedInField(spec: Spec, prefix: string, val: string, w: int)
    requires w == if spec.w == NONE then 0 else spec.w
    ensures InField(Padded(spec, prefix, val), prefix, val, spec.left, spec.zero, w)
  {
    PaddedParts(spec, prefix, val);
  }

  /** The integer a conversion shows. */
  function IntegerOf(d: Directive, v: int): int {
    if d.conv == 'd' || d.conv == 'i' then SignedOf(d.size, v)
    else if d.conv == 'p' then v % 0x1_0000_0000
    else UnsignedOf(d.size, v)
  }

  /** The sign or base prefix of an integer. */
  function PrefixOf(d: Directive, x: int): string {
    if d.conv == 'd' || d.conv == 'i' then
      if x < 0 then "-" else if '+' in d.flags then "+" else if ' ' in d.flags then " " else ""
    else if x == 0 || ('#' !in d.flags && d.conv != 'p') then ""
    else if d.conv == 'x' || d.conv == 'p' then "0x"
    else if d.conv == 'X' then "0X"
    else if d.conv == 'b' then "0b"
    else if d.conv == 'B' then "0B"
    else ""
  }

  /** The digits of `x` without its sign, in the base and case of the letter and with the precision `p`. */
  ghost predicate ShowsInteger(digits: string, d: Directive, x: int, p: int) {
    IsNumeral(digits, if x < 0 then -x else x, BaseOf(d.conv), d.conv == 'X' || d.conv == 'B', if p < 0 then 1 else p,
              d.conv == 'o' && '#' in d.flags)
  }

  /** The text of a directive whose arguments start at number `a`. */
  ghost predicate Shows(text: string, d: Directive, args: Args, a: nat) {
    var v, w, p := args(ValueArg(d, a)), WidthOf(d, args, a), PrecisionOf(d, args, a);
    var left, zero := IsLeft(d, args, a), '0' in d.flags;
    if d.conv == 's' then InField(text, "", if 0 <= p < |v.s| then v.s[..p] else v.s, left, zero, w)
    else if d.conv == 'c' then
      InField(text, "", if v.i % 256 == 0 then "" else [(v.i % 256) as char], left, zero, w)
    else
      var x := IntegerOf(d, v.i);
      exists digits ::
        && ShowsInteger(digits, d, x, p)
        && if d.conv == 'p' then InField(text, PrefixOf(d, x), digits, false, false, w)
           else InField(text, PrefixOf(d, x), digits, left, zero && p < 0, w)
  }

  /** A parsed specifier is the one written. */
  ghost predicate Parsed(spec: Spec, d: Directive, args: Args, a: nat) {
    && spec.left == IsLeft(d, args, a) && spec.zero == ('0' in d.flags)
    && spec.plus == ('+' in d.flags) && spec.space == (' ' in d.flags) && spec.alt == ('#' in d.flags)
    && (if spec.w == -1 then 0 else spec.w) == WidthOf(d, args, a) && spec.p == PrecisionOf(d, args, a)
    && spec.size == (match d.size
                     case "" => 0
                     case "hh" => 1
                     case "h" => 2
                     case "ll" => 8
                     case "j" => 8
                     case "L" => 12
                     case _ => 4)
  }

  /** Numerals in decimal digits have a value. */
  lemma {:induction false} DecimalValue(s: string)
    requires AllDecimal(s)
    ensures ValueOf(s, 10) >= 0
  {
    if s != "" {
      DecimalValue(s[..|s| - 1]);
    }
  }

  lemma PrecisionRange(d: Directive, args: Args, a: nat)
    requires Proper(d)
    ensures PrecisionOf(d, args, a) >= -1
  {
    if d.precision.Number? { DecimalValue(d.precision.digits); }
  }

  /** The narrowing by the length modifier. */
  lemma Narrowed(spec: Spec, d: Directive, args: Args, a: nat, v: int)
    requires Parsed(spec, d, args, a) && Proper(d)
    ensures Unsigned(spec.size, v) == UnsignedOf(d.size, v) && Signed(spec.size, v) == SignedOf(d.size, v)
  {
  }

  lemma IntegerShown(text: string, d: Directive, args: Args, a: nat, digits: string, left: bool, zero: bool)
    requires Proper(d) && d.conv != 's' && d.conv != 'c'
    requires var x, p := IntegerOf(d, args(ValueArg(d, a)).i), PrecisionOf(d, args, a);
      && ShowsInteger(digits, d, x, p)
      && left == (d.conv != 'p' && IsLeft(d, args, a)) && zero == (d.conv != 'p' && '0' in d.flags && p < 0)
      && InField(text, PrefixOf(d, x), digits, left, zero, WidthOf(d, args, a))
    ensures Shows(text, d, args, a)
  {
    hide ShowsInteger, InField;
  }

  /** Precision and zero flag as the conversions of integers take them. */
  lemma IntegerSpec(spec: Spec, d: Directive, args: Args, a: nat)
    requires Parsed(spec, d, args, a) && Proper(d)
    ensures var s, p := WithPrecision(spec), PrecisionOf(d, args, a);
      && p >= -1 && s.p == (if p < 0 then 1 else p) && s.zero == ('0' in d.flags && p < 0)
      && s.left == IsLeft(d, args, a) && spec.plus == ('+' in d.flags) && spec.space == (' ' in d.flags)
      && (if s.w == NONE then 0 else s.w) == WidthOf(d, args, a)
  {
    PrecisionRange(d, args, a);
  }

  lemma SignedShown(text: string, spec: Spec, d: Directive, args: Args, a: nat)
    requires Parsed(spec, d, args, a) && Proper(d) && (d.conv == 'd' || d.conv == 'i')
    requires text == FormatSigned(spec, args(ValueArg(d, a)).i)
    ensures Shows(text, d, args, a)
  {
    hide Parsed, Proper, Numeral, Padded, SignedOf, Signed, InField, IsNumeral, WithPrecision, Shows, WidthOf, IsLeft,
         PrecisionOf;
    var v, s := args(ValueArg(d, a)).i, WithPrecision(spec);
    Narrowed(spec, d, args, a, v);
    IntegerSpec(spec, d, args, a);
    var x := SignedOf(d.size, v);
    var digits := Numeral(Format.Abs(x), 10, s.p, false);
    NumeralMeans(Format.Abs(x), 10, s.p, false);
    PaddedInField(s, PrefixOf(d, x), digits, WidthOf(d, args, a));
    IntegerShown(text, d, args, a, digits, s.left, s.zero);
  }

  predicate IsUnsigned(c: char) {
    c == 'u' || c == 'o' || c == 'x' || c == 'X' || c == 'b' || c == 'B'
  }

  lemma UnsignedShown(text: string, spec: Spec, d: Directive, args: Args, a: nat)
    requires Parsed(spec, d, args, a) && Proper(d) && IsUnsigned(d.conv)
    requires text == FormatUnsigned(spec, BaseOf(d.conv), d.conv == 'X' || d.conv == 'B', args(ValueArg(d, a)).i)
    ensures Shows(text, d, args, a)
  {
    hide Parsed, Proper, Numeral, Padded, UnsignedOf, Unsigned, InField, IsNumeral, WithPrecision, Shows, WidthOf,
         IsLeft, PrecisionOf, FormatUnsigned, Upper, PrefixOf;
    UnsignedText(text, spec, d, args, a);
    var base, up := BaseOf(d.conv), d.conv == 'X' || d.conv == 'B';
    var v, s := args(ValueArg(d, a)).i, WithPrecision(spec);
    IntegerSpec(spec, d, args, a);
    var x, octal := UnsignedOf(d.size, v), d.conv == 'o' && '#' in d.flags;
    var digits := Numeral(x, base, s.p, octal);
    NumeralMeans(x, base, s.p, octal);
    UpperNumeral(digits, x, base, s.p, octal);
    var shown := if up then Upper(digits) else digits;
    PaddedInField(s, PrefixOf(d, x), shown, WidthOf(d, args, a));
    IntegerShown(text, d, args, a, shown, s.left, s.zero);
  }

  lemma UnsignedText(text: string, spec: Spec, d: Directive, args: Args, a: nat)
    requires Parsed(spec, d, args, a) && Proper(d) && IsUnsigned(d.conv)
    requires text == FormatUnsigned(spec, BaseOf(d.conv), d.conv == 'X' || d.conv == 'B', args(ValueArg(d, a)).i)
    ensures PrecisionOf(d, args, a) >= -1
    ensures var x := UnsignedOf(d.size, args(ValueArg(d, a)).i);
      var digits := Numeral(x, BaseOf(d.conv), WithPrecision(spec).p, d.conv == 'o' && '#' in d.flags);
      var shown := if d.conv == 'X' || d.conv == 'B' then Upper(digits) else digits;
      text == Padded(WithPrecision(spec), PrefixOf(d, x), shown)
  {
    hide Numeral, Padded, UnsignedOf, Unsigned, Upper;
    Narrowed(spec, d, args, a, args(ValueArg(d, a)).i);
    PrefixUpper();
    PrecisionRange(d, args, a);
  }

  lemma PrefixUpper()
    ensures Upper("") == "" && Upper("0x") == "0X" && Upper("0b") == "0B"
  {
    assert Upper("x") == "X" && Upper("b") == "B";
  }

  lemma PointerShown(text: string, spec: Spec, d: Directive, args: Args, a: nat)
    requires Parsed(spec, d, args, a) && Proper(d) && d.conv == 'p'
    requires text == FormatPointer(spec, args(ValueArg(d, a)).i)
    ensures Shows(text, d, args, a)
  {
    hide Numeral, Padded, InField, IsNumeral, Shows, WidthOf, IsLeft, PrecisionOf;
    PrecisionRange(d, args, a);
    var s := WithPrecision(Plain.(alt := true, p := spec.p, w := spec.w, size := 4));
    var x := args(ValueArg(d, a)).i % 0x1_0000_0000;
    var digits := Numeral(x, 16, s.p, false);
    NumeralMeans(x, 16, s.p, false);
    PaddedInField(s, PrefixOf(d, x), digits, WidthOf(d, args, a));
    IntegerShown(text, d, args, a, digits, false, false);
  }

  /** The text of a conversion is what its directive stands for. */
  lemma ConvertShown(text: string, spec: Spec, d: Directive, args: Args, a: nat)
    requires Parsed(spec, d, args, a) && Proper(d)
    requires IsConversion(d.conv) && text == Convert(spec, d.conv, args(ValueArg(d, a)))
    ensures Shows(text, d, args, a)
  {
    hide InField, Padded, Parsed, FormatSigned, FormatUnsigned, FormatPointer;
    match d.conv {
      case 's' => StringShown(text, spec, d, args, a);
      case 'c' => StringShown(text, spec, d, args, a);
      case 'd' => SignedShown(text, spec, d, args, a);
      case 'i' => SignedShown(text, spec, d, args, a);
      case 'p' => PointerShown(text, spec, d, args, a);
      case _ => UnsignedShown(text, spec, d, args, a);
    }
  }

  lemma StringShown(text: string, spec: Spec, d: Directive, args: Args, a: nat)
    requires Parsed(spec, d, args, a) && Proper(d) && (d.conv == 's' || d.conv == 'c')
    requires text == Convert(spec, d.conv, args(ValueArg(d, a)))
    ensures Shows(text, d, args, a)
  {
    hide InField, Padded;
    var v, w, p := args(ValueArg(d, a)), WidthOf(d, args, a), PrecisionOf(d, args, a);
    PaddedInField(spec, "", if 0 <= p < |v.s| then v.s[..p] else v.s, w);
    PaddedInField(spec, "", if v.i % 256 == 0 then "" else [(v.i % 256) as char], w);
  }
}
