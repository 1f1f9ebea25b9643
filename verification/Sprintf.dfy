/** Bounded formatting into an array: the unbounded text, cut off at the end of the buffer. */
module Sprintf {
  import opened Common
  import opened Format

  const ENOTSUP: int := 8

  // ---------------------------------------------------------------------------------------------
  // Bounded output

  /** `text` sent to position `pos` of a buffer with `n` usable characters: what is in bounds is stored. */
  ghost predicate Sent(before: seq<char>, after: seq<char>, n: nat, pos: nat, text: string) {
    && |before| == |after|
    && forall k :: 0 <= k < |after| ==>
         after[k] == if pos <= k < pos + |text| && k < n then text[k - pos] else before[k]
  }

  lemma SentThen(a: seq<char>, b: seq<char>, c: seq<char>, n: nat, pos: nat, x: string, y: string)
    requires Sent(a, b, n, pos, x) && Sent(b, c, n, pos + |x|, y)
    ensures Sent(a, c, n, pos, x + y)
  {
  }

  lemma SentNothing(a: seq<char>, n: nat, pos: nat)
    ensures Sent(a, a, n, pos, "")
  {
  }

  method OutChar(buf: array<char>, n: nat, pos: nat, c: char) returns (next: nat)
    requires n <= buf.Length
    modifies buf
    ensures next == pos + 1 && Sent(old(buf[..]), buf[..], n, pos, [c])
  {
    if pos < n { buf[pos] := c; }
    next := pos + 1;
  }

  method OutPad(buf: array<char>, n: nat, pos: nat, c: char, len: nat) returns (next: nat)
    requires n <= buf.Length
    modifies buf
    ensures next == pos + len && Sent(old(buf[..]), buf[..], n, pos, Repeat(c, len))
  {
    next := pos;
    var left: nat := len;
    SentNothing(buf[..], n, pos);
    while left > 0
      invariant left <= len && next == pos + (len - left)
      invariant Sent(old(buf[..]), buf[..], n, pos, Repeat(c, len - left))
    {
      ghost var mid := buf[..];
      next := OutChar(buf, n, next, c);
      SentThen(old(buf[..]), mid, buf[..], n, pos, Repeat(c, len - left), [c]);
      left := left - 1;
      assert Repeat(c, len - left) == Repeat(c, len - left - 1) + [c];
    }
  }

  method OutStr(buf: array<char>, n: nat, pos: nat, str: string) returns (next: nat)
    requires n <= buf.Length
    modifies buf
    ensures next == pos + |str| && Sent(old(buf[..]), buf[..], n, pos, str)
  {
    next := pos;
    var k := 0;
    SentNothing(buf[..], n, pos);
    while k < |str|
      invariant k <= |str| && next == pos + k
      invariant Sent(old(buf[..]), buf[..], n, pos, str[..k])
    {
      ghost var mid := buf[..];
      next := OutChar(buf, n, next, str[k]);
      SentThen(old(buf[..]), mid, buf[..], n, pos, str[..k], [str[k]]);
      k := k + 1;
      assert str[..k] == str[..k - 1] + [str[k - 1]];
    }
    assert str[..k] == str;
  }

  /** One optional run of padding. */
  method OutPadIf(buf: array<char>, n: nat, pos: nat, cond: bool, c: char, len: nat) returns (next: nat)
    requires n <= buf.Length
    modifies buf
    ensures var text := if cond then Repeat(c, len) else "";
      next == pos + |text| && Sent(old(buf[..]), buf[..], n, pos, text)
  {
    next := pos;
    SentNothing(buf[..], n, pos);
    if cond { next := OutPad(buf, n, pos, c, len); }
  }

  method OutPadded(buf: array<char>, n: nat, pos: nat, spec: Spec, prefix: string, val: string) returns (next: nat)
    requires n <= buf.Length
    modifies buf
    ensures next == pos + |Padded(spec, prefix, val)|
    ensures Sent(old(buf[..]), buf[..], n, pos, Padded(spec, prefix, val))
  {
    hide Sent, Repeat, Padded;
    var need := |prefix| + |val|;
    var w := if spec.w != NONE then spec.w else 0;
    var padlen: nat := if w > need then w - need else 0;
    ghost var b0 := buf[..];
    ghost var t1 := if !spec.left && !spec.zero then Repeat(' ', padlen) else "";
    ghost var t3 := if !spec.left && spec.zero then Repeat('0', padlen) else "";
    ghost var t5 := if spec.left then Repeat(' ', padlen) else "";
    ghost var u2 := t1 + prefix;
    ghost var u3 := u2 + t3;
    ghost var u4 := u3 + val;
    PaddedIs(spec, prefix, val, padlen, u4);
    next := OutPadIf(buf, n, pos, !spec.left && !spec.zero, ' ', padlen);
    ghost var b1 := buf[..];
    next := OutStr(buf, n, next, prefix);
    SentThen(b0, b1, buf[..], n, pos, t1, prefix);
    ghost var b2 := buf[..];
    next := OutPadIf(buf, n, next, !spec.left && spec.zero, '0', padlen);
    SentThen(b0, b2, buf[..], n, pos, u2, t3);
    ghost var b3 := buf[..];
    next := OutStr(buf, n, next, val);
    SentThen(b0, b3, buf[..], n, pos, u3, val);
    ghost var b4 := buf[..];
    next := OutPadIf(buf, n, next, spec.left, ' ', padlen);
    SentThen(b0, b4, buf[..], n, pos, u4, t5);
  }

  /** The pieces of a padded text. */
  lemma PaddedIs(spec: Spec, prefix: string, val: string, padlen: nat, front: string)
    requires padlen == if spec.w != NONE && spec.w > |prefix| + |val| then spec.w - (|prefix| + |val|) else 0
    requires front ==
      (if !spec.left && !spec.zero then Repeat(' ', padlen) else "") + prefix
      + (if !spec.left && spec.zero then Repeat('0', padlen) else "") + val
    ensures Padded(spec, prefix, val) == front + (if spec.left then Repeat(' ', padlen) else "")
  {
  }

  // ---------------------------------------------------------------------------------------------
  // Numbers

  /** The first `len` characters in reverse. */
  function Reversed(s: string): (r: string)
    ensures |r| == |s| && forall i :: 0 <= i < |s| ==> r[i] == s[|s| - 1 - i]
  {
    if s == "" then "" else Reversed(s[1..]) + [s[0]]
  }

  lemma {:induction false} Pow2Sum(a: nat, b: nat)
    ensures Pow2(a + b) == Pow2(a) * Pow2(b)
  {
    if b > 0 {
      Pow2Sum(a, b - 1);
      assert Pow2(a + b) == 2 * (Pow2(a) * Pow2(b - 1));
    }
  }

  lemma Power64()
    ensures Pow2(64) == Modulus(64)
  {
    assert Pow2(8) == 0x100;
    Pow2Sum(8, 8);
    Pow2Sum(16, 16);
    Pow2Sum(32, 32);
  }

  lemma {:induction false} DigitCount(v: nat, base: nat, k: nat)
    requires 2 <= base <= 16 && v < Pow2(k)
    ensures |Digits(v, base)| <= k
  {
    if v > 0 {
      DigitCount(Quot(v, base), base, k - 1);
    }
  }

  lemma ReversedSnoc(s: string, c: char)
    ensures Reversed(s + [c]) == [c] + Reversed(s)
  {
  }

  /** `*d++ = c` on the buffer that holds the numeral in reverse. */
  method PushDigit(digitbuf: array<char>, d: nat, c: char) returns (next: nat)
    requires d < digitbuf.Length
    modifies digitbuf
    ensures next == d + 1 && digitbuf[d] == c
    ensures Reversed(digitbuf[..next]) == [c] + Reversed(old(digitbuf[..d]))
  {
    ghost var done := digitbuf[..d];
    digitbuf[d] := c;
    next := d + 1;
    assert digitbuf[..next] == done + [c];
    ReversedSnoc(done, c);
  }

  /** Turns the first `d` characters round into a terminated string. */
  method CopyReversed(s: array<char>, digitbuf: array<char>, d: nat)
    requires s != digitbuf && d <= digitbuf.Length && d < s.Length
    modifies s
    ensures s[d] == '\0' && s[..d] == Reversed(digitbuf[..d])
  {
    var i := d;
    ghost var turned := Reversed(digitbuf[..d]);
    while i > 0
      invariant 0 <= i <= d && s[..d - i] == turned[..d - i]
    {
      i := i - 1;
      s[d - 1 - i] := digitbuf[i];
    }
    s[d] := '\0';
    assert s[..d] == turned[..d] == turned;
  }

  /** Decodes `uval` into `s`: a terminated numeral. Digits are produced in reverse, zeros filled up, and the
      whole turned round. */
  method Itoa(s: array<char>, uval: nat, base: nat, precision: nat, octal: bool) returns (len: nat)
    requires 2 <= base <= 16 && uval < Modulus(64) && precision < DIGITBUFSZ && s.Length == DIGITBUFSZ
    modifies s
    ensures len < DIGITBUFSZ && s[len] == '\0'
    ensures s[..len] == Numeral(uval, base, precision, octal)
  {
    Power64();
    DigitCount(uval, base, 64);
    var digitbuf := new char[DIGITBUFSZ];
    var d := DecodeDigits(digitbuf, uval, base);
    hide *;
    d := PadDigits(digitbuf, d, precision, Digits(uval, base));
    d := PrefixOctal(digitbuf, d, octal, uval, base, precision);
    CopyReversed(s, digitbuf, d);
    len := d;
  }

  /** Leading zeros to meet the precision. */
  method PadDigits(digitbuf: array<char>, start: nat, precision: nat, ghost digits: string) returns (d: nat)
    requires start == |digits| && start <= digitbuf.Length && precision <= digitbuf.Length
    requires Reversed(digitbuf[..start]) == digits
    modifies digitbuf
    ensures d == if precision > start then precision else start
    ensures Reversed(digitbuf[..d]) == Repeat('0', precision - start) + digits
  {
    hide Reversed, Repeat, Zeroed;
    d := start;
    ZeroedStep(0, digits);
    while d < precision
      invariant start <= d && (d <= precision || d == start)
      invariant Reversed(digitbuf[..d]) == Zeroed(d - start, digits)
    {
      ZeroedStep(d - start, digits);
      d := PushDigit(digitbuf, d, '0');
    }
    ZeroedIs(d - start, precision - start, digits);
  }

  /** A numeral with `n` zeros in front. */
  ghost function Zeroed(n: nat, digits: string): string {
    if n == 0 then digits else ['0'] + Zeroed(n - 1, digits)
  }

  lemma ZeroedStep(n: nat, digits: string)
    ensures Zeroed(0, digits) == digits && Zeroed(n + 1, digits) == ['0'] + Zeroed(n, digits)
  {
  }

  lemma {:induction false} ZeroedIs(n: nat, m: int, digits: string)
    requires n == if m > 0 then m else 0
    ensures Zeroed(n, digits) == Repeat('0', m) + digits
  {
    if n > 0 {
      ZeroedIs(n - 1, m - 1, digits);
      Regroup(['0'], Repeat('0', m - 1), digits);
    }
  }

  /** One more zero for the octal prefix when none leads. */
  method PrefixOctal(digitbuf: array<char>, start: nat, octal: bool,
                     ghost v: nat, ghost base: nat, ghost precision: nat)
    returns (d: nat)
    requires 2 <= base <= 16 && precision < DIGITBUFSZ == digitbuf.Length && |Digits(v, base)| <= 64
    requires start == if precision > |Digits(v, base)| then precision else |Digits(v, base)|
    requires Reversed(digitbuf[..start]) == Repeat('0', precision - |Digits(v, base)|) + Digits(v, base)
    modifies digitbuf
    ensures d < DIGITBUFSZ && Reversed(digitbuf[..d]) == Numeral(v, base, precision, octal)
  {
    d := start;
    ghost var full := Reversed(digitbuf[..d]);
    assert d > 0 ==> full[0] == digitbuf[d - 1];
    hide Digits, Reversed;
    if octal && (d == 0 || digitbuf[d - 1] != '0') {
      d := PushDigit(digitbuf, d, '0');
    }
  }

  method DecodeDigits(digitbuf: array<char>, uval: nat, base: nat) returns (d: nat)
    requires 2 <= base <= 16 && |Digits(uval, base)| <= digitbuf.Length
    modifies digitbuf
    ensures d == |Digits(uval, base)| && Reversed(digitbuf[..d]) == Digits(uval, base)
  {
    var rest := uval;
    d := 0;
    hide Reversed, Quot, Rem, HexDigit;
    while rest != 0
      invariant d + |Digits(rest, base)| == |Digits(uval, base)|
      invariant Digits(uval, base) == Digits(rest, base) + Reversed(digitbuf[..d])
      decreases rest
    {
      ghost var done := Reversed(digitbuf[..d]);
      var digit := Rem(rest, base);
      d := PushDigit(digitbuf, d, HexDigit(digit));
      assert Digits(Quot(rest, base), base) + ([HexDigit(digit)] + done) == Digits(rest, base) + done;
      rest := Quot(rest, base);
    }
  }

  // ---------------------------------------------------------------------------------------------
  // Conversions

  method StrToUpper(s: array<char>, len: nat)
    requires len < s.Length && s[len] == '\0' && '\0' !in s[..len]
    modifies s
    ensures s[..len] == Upper(old(s[..len])) && s[len..] == old(s[len..])
  {
    var k := 0;
    while s[k] != '\0'
      invariant k <= len
      invariant forall i :: 0 <= i < s.Length ==> s[i] == if i < k then UpperChar(old(s[i])) else old(s[i])
      decreases len - k
    {
      assert s[..len][..k] == s[..k];
      s[k] := UpperChar(s[k]);
      k := k + 1;
      assert k < len ==> old(s[..len])[k] == old(s[k]);
    }
  }

  lemma {:induction false} NoTerminator(v: nat, base: nat)
    requires 2 <= base <= 16
    ensures '\0' !in Digits(v, base)
    decreases v
  {
    if v > 0 {
      NoTerminator(Quot(v, base), base);
    }
  }

  method OutSigned(buf: array<char>, n: nat, pos: nat, spec: Spec, v: int) returns (next: nat)
    requires n <= buf.Length && spec.p < DIGITBUFSZ && Signed(spec.size, v) > -0x8000_0000_0000_0000
    modifies buf
    ensures next == pos + |FormatSigned(spec, v)| && Sent(old(buf[..]), buf[..], n, pos, FormatSigned(spec, v))
  {
    var val := Signed(spec.size, v);
    var sign := SignPrefix(spec, val < 0);
    val := if val < 0 then -val else val;
    var s := if spec.p == NONE then spec.(p := 1) else spec.(zero := false);
    var digitbuf := new char[DIGITBUFSZ];
    var len := Itoa(digitbuf, val, 10, if s.p < 0 then 0 else s.p, false);
    next := OutPadded(buf, n, pos, s, sign, digitbuf[..len]);
  }

  /** The terminated digit string of an unsigned conversion. */
  method UnsignedDigits(val: nat, base: nat, precision: int, octal: bool, up: bool) returns (str: string)
    requires 2 <= base <= 16 && val < Modulus(64) && precision < DIGITBUFSZ
    ensures str == if up then Upper(Numeral(val, base, precision, octal)) else Numeral(val, base, precision, octal)
  {
    var digitbuf := new char[DIGITBUFSZ];
    var len := Itoa(digitbuf, val, base, if precision < 0 then 0 else precision, octal);
    if up {
      NoTerminator(val, base);
      StrToUpper(digitbuf, len);
    }
    str := digitbuf[..len];
  }

  method OutUnsigned(buf: array<char>, n: nat, pos: nat, spec: Spec, base: nat, up: bool, v: int) returns (next: nat)
    requires n <= buf.Length && spec.p < DIGITBUFSZ && base in {2, 8, 10, 16}
    modifies buf
    ensures next == pos + |FormatUnsigned(spec, base, up, v)|
    ensures Sent(old(buf[..]), buf[..], n, pos, FormatUnsigned(spec, base, up, v))
  {
    var val := Unsigned(spec.size, v);
    var octal := spec.alt && base == 8;
    var prefix := "";
    if spec.alt && base == 2 && val != 0 { prefix := "0b"; }
    else if spec.alt && base == 16 && val != 0 { prefix := "0x"; }
    var s := if spec.p == NONE then spec.(p := 1) else spec.(zero := false);
    hide Sent, Numeral, Padded;
    var digits := UnsignedDigits(val, base, s.p, octal, up);
    if up { prefix := Upper(prefix); }
    next := OutPadded(buf, n, pos, s, prefix, digits);
  }

  method OutString(buf: array<char>, n: nat, pos: nat, spec: Spec, s: CString) returns (next: nat)
    requires n <= buf.Length
    modifies buf
    ensures next == pos + |FormatString(spec, s)| && Sent(old(buf[..]), buf[..], n, pos, FormatString(spec, s))
  {
    var str := if spec.p != NONE && 0 <= spec.p < |s| then s[..spec.p] else s;
    next := OutPadded(buf, n, pos, spec, "", str);
  }

  /** The conversion a specifier ends in. */
  method OutConversion(buf: array<char>, n: nat, pos: nat, spec: Spec, conv: char, arg: Slot) returns (next: nat)
    requires n <= buf.Length && IsConversion(conv)
    requires conv !in "%sc" ==> spec.p < DIGITBUFSZ
    requires conv in "di" ==> Signed(spec.size, arg.i) > -0x8000_0000_0000_0000
    modifies buf
    ensures next == pos + |Convert(spec, conv, arg)| && Sent(old(buf[..]), buf[..], n, pos, Convert(spec, conv, arg))
  {
    hide Sent, FormatSigned, FormatUnsigned, FormatString;
    match conv
    case '%' => next := OutChar(buf, n, pos, '%');
    case 's' => next := OutString(buf, n, pos, spec, arg.s);
    case 'c' =>
      var c := (arg.i % 256) as char;
      next := OutPadded(buf, n, pos, spec, "", if c == '\0' then "" else [c]);
    case 'd' => next := OutSigned(buf, n, pos, spec, arg.i);
    case 'i' => next := OutSigned(buf, n, pos, spec, arg.i);
    case 'u' => next := OutUnsigned(buf, n, pos, spec, 10, false, arg.i);
    case 'o' => next := OutUnsigned(buf, n, pos, spec, 8, false, arg.i);
    case 'x' => next := OutUnsigned(buf, n, pos, spec, 16, false, arg.i);
    case 'X' => next := OutUnsigned(buf, n, pos, spec, 16, true, arg.i);
    case 'b' => next := OutUnsigned(buf, n, pos, spec, 2, false, arg.i);
    case 'B' => next := OutUnsigned(buf, n, pos, spec, 2, true, arg.i);
    case _ =>
      var uspec := Plain.(alt := true, p := spec.p, w := spec.w, size := 4);
      next := OutUnsigned(buf, n, pos, uspec, 16, false, arg.i);
  }

  /** One flag, digit, star, dot or length modifier, already consumed: `at` is the position behind it. */
  method Modifier(ch: char, fmt: CString, at: nat, spec0: Spec, onP0: bool, zero0: bool, arg0: nat, args: Args,
                  ghost f: nat)
    returns (spec: Spec, onP: bool, zeroIsFlag: bool, i: nat, arg: nat)
    requires 0 < at <= |fmt| && fmt[at - 1] == ch
    ensures Scan(spec, onP, zeroIsFlag, i, arg, f + 1) == Turn(fmt, Scan(spec0, onP0, zero0, at - 1, arg0, f), args)
  {
    spec, onP, zeroIsFlag, i, arg := spec0, onP0, zero0, at, arg0;
    hide PutFlag, PutDigit, PutStar, SizeOf;
    if IsFlag(ch) {
      spec := PutFlag(spec, ch);
    } else if ch == '0' && zeroIsFlag {
      spec, zeroIsFlag := spec.(zero := true), false;
    } else if IsDigit(ch) {
      spec := Digit(spec, onP, (ch - '0') as int);
      zeroIsFlag := false;
    } else if ch == '*' {
      spec := Star(spec, onP, args(arg).i);
      arg := arg + 1;
    } else if ch == '.' {
      onP, spec, zeroIsFlag := true, spec.(p := 0), false;
    } else {
      var double := (ch == 'h' || ch == 'l') && i < |fmt| && fmt[i] == ch;
      spec := spec.(size := SizeOf(ch, double));
      if double { i := i + 1; }
    }
  }

  /** Appends a digit to the width or the precision. */
  method Digit(spec0: Spec, onP: bool, d: int) returns (spec: Spec)
    ensures spec == PutDigit(spec0, onP, d)
  {
    spec := spec0;
    if onP {
      if spec.p == NONE { spec := spec.(p := 0); }
      spec := spec.(p := spec.p * 10 + d);
    } else {
      if spec.w == NONE { spec := spec.(w := 0); }
      spec := spec.(w := spec.w * 10 + d);
    }
  }

  /** A width or precision taken from the arguments. */
  method Star(spec0: Spec, onP: bool, v: int) returns (spec: Spec)
    ensures spec == PutStar(spec0, onP, v)
  {
    spec := if onP then spec0.(p := v) else spec0.(w := v);
    if !onP && spec.w < 0 { spec := spec.(left := true, w := -spec.w); }
    if onP && spec.p < 0 { spec := spec.(p := NONE); }
  }

  /** The specifier loop, with its debugging copy, up to the character that ends it. */
  method ScanSpecifier(fmt: CString, start: nat, args: Args, firstArg: nat) returns (spec: Spec, i: nat, arg: nat)
    requires start < |fmt| && fmt[start] == '%'
    requires SpecAt(fmt, start, args, firstArg).copied < FMTCPYSZ
    ensures var s := SpecAt(fmt, start, args, firstArg); spec == s.spec && i == s.i && arg == s.arg
  {
    hide IsModifier, Turn;
    var onP, zeroIsFlag := false, true;
    spec := Plain;
    var fmtbuf := new char[FMTCPYSZ];
    var f := 0;
    fmtbuf[f], f := fmt[start], f + 1;
    i, arg := start + 1, firstArg;
    while i < |fmt| && IsModifier(fmt[i])
      invariant i <= |fmt|
      invariant 0 < f && SpecAt(fmt, start, args, firstArg) == Parse(fmt, Scan(spec, onP, zeroIsFlag, i, arg, f), args)
    {
      var ch := fmt[i];
      fmtbuf[f], f, i := ch, f + 1, i + 1;
      spec, onP, zeroIsFlag, i, arg := Modifier(ch, fmt, i, spec, onP, zeroIsFlag, arg, args, f - 1);
    }
    if i < |fmt| { fmtbuf[f] := fmt[i]; }
  }

  /** Parses one specifier, behind its percent sign, and outputs its conversion. */
  method ProcessConversion(buf: array<char>, n: nat, pos: nat, fmt: CString, start: nat, args: Args, firstArg: nat)
    returns (ok: bool, next: nat, i: nat, arg: nat)
    requires n <= buf.Length && start < |fmt| && fmt[start] == '%'
    requires var s := SpecAt(fmt, start, args, firstArg);
      if s.i == |fmt| then s.copied < FMTCPYSZ else SpecFits(fmt, s, args(s.arg))
    modifies buf
    ensures var s := SpecAt(fmt, start, args, firstArg);
      if s.i == |fmt| || !IsConversion(fmt[s.i]) then !ok && buf[..] == old(buf[..])
      else
        && ok && i == s.i + 1 && arg == (if fmt[s.i] == '%' then s.arg else s.arg + 1)
        && next == pos + |Convert(s.spec, fmt[s.i], args(s.arg))|
        && Sent(old(buf[..]), buf[..], n, pos, Convert(s.spec, fmt[s.i], args(s.arg)))
  {
    hide Parse, Convert, Sent, IsConversion;
    ok, next := false, pos;
    var spec;
    spec, i, arg := ScanSpecifier(fmt, start, args, firstArg);
    if i == |fmt| { return; }
    var conv := fmt[i];
    i := i + 1;
    if !IsConversion(conv) { return; }
    next := OutConversion(buf, n, pos, spec, conv, args(arg));
    ok := true;
    if conv != '%' { arg := arg + 1; }
  }

  // ---------------------------------------------------------------------------------------------
  // Whole formats

  /** The buffer after a whole format: `text` as far as it goes, a terminator behind it or in the last
      place, and nothing at or beyond `n`. */
  ghost predicate Stored(before: seq<char>, after: seq<char>, n: nat, text: string) {
    && |before| == |after|
    && forall k :: 0 <= k < |after| ==>
         after[k] == if k >= n then before[k]
                     else if k == (if |text| < n then |text| else n - 1) then '\0'
                     else if k < |text| then text[k] else before[k]
  }

  /** The next ordinary character or conversion of the format. */
  method OutNext(buf: array<char>, n: nat, pos: nat, fmt: CString, start: nat, args: Args, firstArg: nat)
    returns (ok: bool, next: nat, i: nat, arg: nat, ghost piece: string)
    requires n <= buf.Length && start < |fmt| && Fits(fmt, start, args, firstArg)
    modifies buf
    ensures var all := Render(fmt, start, args, firstArg);
      if !ok then all == Rendered("", false) && buf[..] == old(buf[..])
      else
        && start < i <= |fmt| && Fits(fmt, i, args, arg)
        && next == pos + |piece| && Sent(old(buf[..]), buf[..], n, pos, piece)
        && all == Rendered(piece + Render(fmt, i, args, arg).text, Render(fmt, i, args, arg).ok)
  {
    hide Sent, Convert, SpecFits;
    if fmt[start] != '%' {
      piece := [fmt[start]];
      next := OutChar(buf, n, pos, fmt[start]);
      ok, i, arg := true, start + 1, firstArg;
    } else {
      ghost var s := SpecAt(fmt, start, args, firstArg);
      ok, next, i, arg := ProcessConversion(buf, n, pos, fmt, start, args, firstArg);
      piece := if ok then Convert(s.spec, fmt[s.i], args(s.arg)) else "";
    }
  }

  /** `snprintf_impl`: agrees with the unbounded text for every format, arguments and size. */
  method Snprintf(buf: array<char>, n: nat, fmt: CString, args: Args) returns (res: int)
    requires n <= buf.Length && Fits(fmt, 0, args, 0)
    modifies buf
    ensures var r := Render(fmt, 0, args, 0);
      if r.ok then res == |r.text| && Stored(old(buf[..]), buf[..], n, r.text)
      else res == -8 && Sent(old(buf[..]), buf[..], n, 0, r.text)
  {
    hide Sent, Fits, Render;
    ghost var all := Render(fmt, 0, args, 0);
    ghost var text := "";
    var pos, i, arg := 0, 0, 0;
    SentNothing(buf[..], n, 0);
    while i < |fmt|
      invariant i <= |fmt| && pos == |text| && Fits(fmt, i, args, arg)
      invariant Sent(old(buf[..]), buf[..], n, 0, text)
      invariant var rest := Render(fmt, i, args, arg); all == Rendered(text + rest.text, rest.ok)
      decreases |fmt| - i
    {
      ghost var mid := buf[..];
      var ok;
      ghost var piece;
      ok, pos, i, arg, piece := OutNext(buf, n, pos, fmt, i, args, arg);
      if !ok {
        assert text + "" == text;
        return -ENOTSUP;
      }
      SentThen(old(buf[..]), mid, buf[..], n, 0, text, piece);
      ghost var rest := Render(fmt, i, args, arg).text;
      assert text + (piece + rest) == text + piece + rest;
      text := text + piece;
    }
    RenderEnd(fmt, args, arg);
    assert text + "" == text;
    Terminate(buf, n, pos, text, old(buf[..]));
    res := pos;
  }

  lemma RenderEnd(fmt: CString, args: Args, arg: nat)
    ensures Render(fmt, |fmt|, args, arg) == Rendered("", true)
  {
  }

  method Terminate(buf: array<char>, n: nat, pos: nat, ghost text: string, ghost before: seq<char>)
    requires n <= buf.Length && pos == |text| && Sent(before, buf[..], n, 0, text)
    modifies buf
    ensures Stored(before, buf[..], n, text)
  {
    if n > 0 {
      if pos < n { buf[pos] := '\0'; } else { buf[n - 1] := '\0'; }
    }
  }

  // ---------------------------------------------------------------------------------------------
  // Formatting into a file

  const DEFAULT_BUFSZ: nat := 256

  /** What `file_vprintf` ends with: an error, or the text it hands to `file_write`. */
  datatype Printed = Failed(error: int) | Write(text: string)

  /** Formats into a buffer of the default size, and once more into one of the exact size if that was too small. */
  method FileVprintf(fmt: CString, args: Args) returns (res: Printed, passes: nat)
    requires Fits(fmt, 0, args, 0)
    ensures var r := Render(fmt, 0, args, 0);
      && res == (if r.ok then Write(r.text) else Failed(-8))
      && passes == if r.ok && |r.text| >= 256 then 2 else 1
  {
    hide Fits, Render;
    ghost var r := Render(fmt, 0, args, 0);
    var bufsz := DEFAULT_BUFSZ;
    passes := 0;
    while true
      invariant passes <= 1 && bufsz == if passes == 0 then DEFAULT_BUFSZ else |r.text| + 1
      invariant passes == 1 ==> r.ok && |r.text| >= DEFAULT_BUFSZ
      decreases 2 - passes
    {
      var buf := new char[bufsz];
      var len := Snprintf(buf, bufsz, fmt, args);
      passes := passes + 1;
      if len < 0 { return Failed(len), passes; }
      if len < bufsz {
        assert buf[..len] == r.text;
        return Write(buf[..len]), passes;
      }
      bufsz := len + 1;
    }
  }
}
