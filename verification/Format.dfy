/** What a format string means: parsing of conversions and the unbounded text they produce. */
module Format {

  type CString = s: seq<char> | '\0' !in s witness []

  /** One variadic argument: what it reads as, taken as an integer or as a string. */
  datatype Slot = Slot(i: int, s: CString)

  /** The argument list; every conversion or star takes the next one. */
  type Args = nat -> Slot

  const NONE: int := -1
  const FMTCPYSZ: nat := 32
  const DIGITBUFSZ: nat := 128

  datatype Spec = Spec(left: bool, plus: bool, space: bool, alt: bool, zero: bool, w: int, p: int, size: nat)

  const Plain: Spec := Spec(false, false, false, false, false, NONE, NONE, 0)

  // ---------------------------------------------------------------------------------------------
  // Conversion specifiers

  predicate IsDigit(ch: char) {
    '0' <= ch <= '9'
  }

  predicate IsConversion(ch: char) {
    ch in "%scdiuoxXbBp"
  }

  /** Where a specifier stands in the middle: `onP` after the dot, `zeroIsFlag` before the first digit. `copied`
      counts the characters kept in the debugging copy. */
  datatype Scan = Scan(spec: Spec, onP: bool, zeroIsFlag: bool, i: nat, arg: nat, copied: nat)

  predicate IsFlag(ch: char) {
    ch == '-' || ch == '+' || ch == ' ' || ch == '#'
  }

  function PutFlag(spec: Spec, ch: char): Spec
    requires IsFlag(ch)
  {
    match ch
    case '-' => spec.(left := true)
    case '+' => spec.(plus := true)
    case ' ' => spec.(space := true)
    case '#' => spec.(alt := true)
  }

  function PutDigit(spec: Spec, onP: bool, d: int): Spec {
    if onP then spec.(p := (if spec.p == NONE then 0 else spec.p) * 10 + d)
    else spec.(w := (if spec.w == NONE then 0 else spec.w) * 10 + d)
  }

  function PutStar(spec: Spec, onP: bool, v: int): Spec {
    if onP then spec.(p := if v < 0 then NONE else v)
    else if v < 0 then spec.(left := true, w := -v)
    else spec.(w := v)
  }

  function SizeOf(ch: char, double: bool): nat {
    match ch
    case 'h' => if double then 1 else 2
    case 'l' => if double then 8 else 4
    case 'j' => 8
    case 'L' => 12
    case _ => 4
  }

  predicate IsModifier(ch: char) {
    ch in "-+ #*.hljztL" || IsDigit(ch)
  }

  /** One turn of the specifier loop on a character that does not end it. */
  function Turn(fmt: CString, s: Scan, args: Args): (t: Scan)
    requires s.i < |fmt|
    ensures s.i < t.i <= |fmt| && t.copied == s.copied + 1
  {
    var ch := fmt[s.i];
    var t := s.(i := s.i + 1, copied := s.copied + 1);
    if IsFlag(ch) then t.(spec := PutFlag(t.spec, ch))
    else if ch == '0' && s.zeroIsFlag then t.(spec := t.spec.(zero := true), zeroIsFlag := false)
    else if IsDigit(ch) then t.(spec := PutDigit(t.spec, s.onP, (ch - '0') as int), zeroIsFlag := false)
    else if ch == '*' then t.(spec := PutStar(t.spec, s.onP, args(s.arg).i), arg := s.arg + 1)
    else if ch == '.' then t.(spec := t.spec.(p := 0), onP := true, zeroIsFlag := false)
    else
      var double := (ch == 'h' || ch == 'l') && t.i < |fmt| && fmt[t.i] == ch;
      t.(spec := t.spec.(size := SizeOf(ch, double)), i := if double then t.i + 1 else t.i)
  }

  /** Runs to the character that ends the specifier, or to the end of the format. */
  function Parse(fmt: CString, s: Scan, args: Args): (r: Scan)
    requires s.i <= |fmt|
    ensures s.i <= r.i <= |fmt|
    ensures r.i < |fmt| ==> !IsModifier(fmt[r.i])
    ensures r.copied >= s.copied
    decreases |fmt| - s.i
  {
    if s.i == |fmt| || !IsModifier(fmt[s.i]) then s else Parse(fmt, Turn(fmt, s, args), args)
  }

  // ---------------------------------------------------------------------------------------------
  // Values

  function Repeat(c: char, n: int): (r: string)
    ensures |r| == if n > 0 then n else 0
    ensures forall i :: 0 <= i < |r| ==> r[i] == c
  {
    if n <= 0 then "" else [c] + Repeat(c, n - 1)
  }

  /** Padding to the field width: spaces before, zeros after the prefix, or spaces behind. */
  function Padded(spec: Spec, prefix: string, val: string): (r: string)
    ensures |r| == if spec.w > |prefix| + |val| then spec.w else |prefix| + |val|
  {
    var pad := spec.w - |prefix| - |val|;
    (if !spec.left && !spec.zero then Repeat(' ', pad) else "")
    + prefix
    + (if !spec.left && spec.zero then Repeat('0', pad) else "")
    + val
    + (if spec.left then Repeat(' ', pad) else "")
  }

  /** Where the padding stands: spaces behind a left-justified text, zeros between prefix and digits, or spaces
      in front; and it is as much as the width asks for, and no more. */
  lemma PaddedParts(spec: Spec, prefix: string, val: string)
    ensures var r := Padded(spec, prefix, val); var pad, front := |r| - |prefix| - |val|, |prefix| + |val|;
      && 0 <= pad && (pad > 0 ==> |r| == spec.w) && spec.w <= |r|
      && (spec.left ==> r[..front] == prefix + val && forall i :: front <= i < |r| ==> r[i] == ' ')
      && (!spec.left && spec.zero ==>
            && r[..|prefix|] == prefix && r[|prefix| + pad..] == val
            && forall i :: |prefix| <= i < |prefix| + pad ==> r[i] == '0')
      && (!spec.left && !spec.zero ==> r[pad..] == prefix + val && forall i :: 0 <= i < pad ==> r[i] == ' ')
  {
  }

  function HexDigit(d: nat): char
    requires d < 16
  {
    if d < 10 then '0' + d as char else 'a' + (d - 10) as char
  }

  function Quot(v: nat, base: nat): (q: nat)
    requires base >= 2
    ensures 2 * q <= v
  {
    assert v == base * (v / base) + v % base && (base - 2) * (v / base) >= 0;
    v / base
  }

  function Rem(v: nat, base: nat): (r: nat)
    requires base >= 2
    ensures r < base
    ensures v == base * Quot(v, base) + r
  {
    v % base
  }

  /** Digits of `v`, most significant first; none for zero. */
  function Digits(v: nat, base: nat): string
    requires 2 <= base <= 16
    decreases v
  {
    if v == 0 then "" else Digits(Quot(v, base), base) + [HexDigit(Rem(v, base))]
  }

  /** Zeros up to the precision, and one more for an octal prefix unless a zero already leads. */
  function Numeral(v: nat, base: nat, precision: int, octal: bool): string
    requires 2 <= base <= 16
  {
    var d := Digits(v, base);
    var full := Repeat('0', precision - |d|) + d;
    if octal && (full == "" || full[0] != '0') then "0" + full else full
  }

  function Upper(s: string): (r: string)
    ensures |r| == |s| && forall i :: 0 <= i < |s| ==> r[i] == UpperChar(s[i])
  {
    if s == "" then "" else [UpperChar(s[0])] + Upper(s[1..])
  }

  function UpperChar(c: char): char {
    if 'a' <= c <= 'z' then c - 'a' + 'A' else c
  }

  /** Bits of the type an integer argument is read as; `sz` is the size given by the length modifier. */
  function Bits(sz: nat): nat {
    if sz == 0 then 32 else if sz <= 1 then 8 else if sz <= 2 then 16 else if sz <= 4 then 32 else 64
  }

  function Modulus(bits: nat): nat {
    if bits == 8 then 0x100
    else if bits == 16 then 0x1_0000
    else if bits == 32 then 0x1_0000_0000
    else 0x1_0000_0000_0000_0000
  }

  function Unsigned(sz: nat, v: int): (r: nat)
    ensures r < Modulus(64)
  {
    v % Modulus(Bits(sz))
  }

  function Signed(sz: nat, v: int): int {
    var m := Modulus(Bits(sz));
    var u := v % m;
    if u < m / 2 then u else u - m
  }

  function SignPrefix(spec: Spec, negative: bool): string {
    if negative then "-" else if spec.plus then "+" else if spec.space then " " else ""
  }

  function Abs(v: int): nat {
    if v < 0 then -v else v
  }

  /** An explicit precision turns the zero flag off; the default precision is 1. */
  function WithPrecision(spec: Spec): Spec {
    if spec.p == NONE then spec.(p := 1) else spec.(zero := false)
  }

  function FormatSigned(spec: Spec, v: int): string {
    var val := Signed(spec.size, v);
    var s := WithPrecision(spec);
    Padded(s, SignPrefix(spec, val < 0), Numeral(Abs(val), 10, s.p, false))
  }

  function FormatUnsigned(spec: Spec, base: nat, up: bool, v: int): string
    requires base in {2, 8, 10, 16}
  {
    var val := Unsigned(spec.size, v);
    var s := WithPrecision(spec);
    var prefix :=
      if spec.alt && base == 2 && val != 0 then "0b"
      else if spec.alt && base == 16 && val != 0 then "0x"
      else "";
    var digits := Numeral(val, base, s.p, spec.alt && base == 8);
    if up then Padded(s, Upper(prefix), Upper(digits)) else Padded(s, prefix, digits)
  }

  function FormatString(spec: Spec, s: CString): string {
    Padded(spec, "", if spec.p != NONE && 0 <= spec.p < |s| then s[..spec.p] else s)
  }

  function FormatChar(spec: Spec, v: int): string {
    var c := (v % 256) as char;
    Padded(spec, "", if c == '\0' then "" else [c])
  }

  function FormatPointer(spec: Spec, v: int): string {
    FormatUnsigned(Plain.(alt := true, p := spec.p, w := spec.w, size := 4), 16, false, v)
  }

  function Convert(spec: Spec, conv: char, arg: Slot): string
    requires IsConversion(conv)
  {
    match conv
    case '%' => "%"
    case 's' => FormatString(spec, arg.s)
    case 'c' => FormatChar(spec, arg.i)
    case 'd' => FormatSigned(spec, arg.i)
    case 'i' => FormatSigned(spec, arg.i)
    case 'u' => FormatUnsigned(spec, 10, false, arg.i)
    case 'o' => FormatUnsigned(spec, 8, false, arg.i)
    case 'x' => FormatUnsigned(spec, 16, false, arg.i)
    case 'X' => FormatUnsigned(spec, 16, true, arg.i)
    case 'b' => FormatUnsigned(spec, 2, false, arg.i)
    case 'B' => FormatUnsigned(spec, 2, true, arg.i)
    case _ => FormatPointer(spec, arg.i)
  }

  // ---------------------------------------------------------------------------------------------
  // Whole formats

  /** The text produced before the format ended or an unknown conversion stopped it. */
  datatype Rendered = Rendered(text: string, ok: bool)

  const Scanning: Scan := Scan(Plain, false, true, 0, 0, 1)

  /** The specifier behind the percent sign at `i`. */
  function SpecAt(fmt: CString, i: nat, args: Args, a: nat): (r: Scan)
    requires i < |fmt|
    ensures i < r.i <= |fmt|
  {
    Parse(fmt, Scanning.(i := i + 1, arg := a), args)
  }

  function Render(fmt: CString, i: nat, args: Args, a: nat): Rendered
    requires i <= |fmt|
    decreases |fmt| - i
  {
    if i == |fmt| then Rendered("", true)
    else if fmt[i] != '%' then
      var rest := Render(fmt, i + 1, args, a);
      Rendered([fmt[i]] + rest.text, rest.ok)
    else
      var s := SpecAt(fmt, i, args, a);
      if s.i == |fmt| || !IsConversion(fmt[s.i]) then Rendered("", false)
      else
        var rest := Render(fmt, s.i + 1, args, if fmt[s.i] == '%' then s.arg else s.arg + 1);
        Rendered(Convert(s.spec, fmt[s.i], args(s.arg)) + rest.text, rest.ok)
  }

  /** The fixed buffers hold: a specifier fits its copy, an integer its digits, and a signed value can be negated. */
  predicate SpecFits(fmt: CString, s: Scan, arg: Slot)
    requires s.i < |fmt|
  {
    && s.copied < FMTCPYSZ
    && (IsConversion(fmt[s.i]) && fmt[s.i] !in "%sc" ==> s.spec.p < DIGITBUFSZ)
    && (fmt[s.i] in "di" ==> Signed(s.spec.size, arg.i) > -0x8000_0000_0000_0000)
  }

  predicate Fits(fmt: CString, i: nat, args: Args, a: nat)
    requires i <= |fmt|
    decreases |fmt| - i
  {
    if i == |fmt| then true
    else if fmt[i] != '%' then Fits(fmt, i + 1, args, a)
    else
      var s := SpecAt(fmt, i, args, a);
      if s.i == |fmt| then s.copied < FMTCPYSZ
      else
        && SpecFits(fmt, s, args(s.arg))
        && (IsConversion(fmt[s.i]) ==> Fits(fmt, s.i + 1, args, if fmt[s.i] == '%' then s.arg else s.arg + 1))
  }
}
