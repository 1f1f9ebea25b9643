/** Whole formats: a written directive is parsed as written, and a format of ordinary characters, percent signs and
    directives produces their texts one behind the other. */
module FormatPieces {
  import opened Common
  import opened Format
  import opened FormatText

  ghost predicate Stands(fmt: string, i: nat, text: string) {
    i + |text| <= |fmt| && fmt[i..i + |text|] == text
  }

  lemma StandsConcat(fmt: string, i: nat, x: string, y: string)
    requires Stands(fmt, i, x + y)
    ensures Stands(fmt, i, x) && Stands(fmt, i + |x|, y)
  {
    assert (x + y)[..|x|] == x && (x + y)[|x|..] == y;
    assert fmt[i..i + |x|] == fmt[i..i + |x + y|][..|x|];
    assert fmt[i + |x|..i + |x| + |y|] == fmt[i..i + |x + y|][|x|..];
  }

  lemma StandsFirst(fmt: string, i: nat, text: string)
    requires Stands(fmt, i, text) && text != ""
    ensures i < |fmt| && fmt[i] == text[0] && Stands(fmt, i + 1, text[1..])
  {
    assert text == [text[0]] + text[1..];
    StandsConcat(fmt, i, [text[0]], text[1..]);
    assert fmt[i] == fmt[i..i + 1][0];
  }

  // ---------------------------------------------------------------------------------------------
  // Parsing, part by part

  /** The scan `s` leads to the scan `t`. */
  ghost predicate Leads(fmt: CString, s: Scan, t: Scan, args: Args) {
    s.i <= |fmt| && t.i <= |fmt| && Parse(fmt, s, args) == Parse(fmt, t, args)
  }

  /** How far a run of flags has got: `t` is `s` with the flags of `done` added. */
  ghost predicate Flagged(s: Scan, t: Scan, done: string) {
    && t.i == s.i + |done| && t.arg == s.arg && t.onP == s.onP
    && t.spec.w in {-1, 0} && t.spec.p == s.spec.p && t.spec.size == s.spec.size
    && t.spec.zero == !t.zeroIsFlag && t.spec.zero == (s.spec.zero || '0' in done)
    && t.spec.left == (s.spec.left || '-' in done) && t.spec.plus == (s.spec.plus || '+' in done)
    && t.spec.space == (s.spec.space || ' ' in done) && t.spec.alt == (s.spec.alt || '#' in done)
  }

  lemma OneFlag(fmt: CString, s: Scan, args: Args, ch: char)
    requires s.i < |fmt| && fmt[s.i] == ch && ch in "-+ #0"
    requires !s.onP && s.spec.w in {-1, 0} && s.spec.zero == !s.zeroIsFlag
    ensures Leads(fmt, s, Turn(fmt, s, args), args) && Flagged(s, Turn(fmt, s, args), [ch])
  {
  }

  lemma FlaggedThen(s: Scan, t: Scan, u: Scan, ch: char, rest: string)
    requires Flagged(s, t, [ch]) && Flagged(t, u, rest)
    ensures Flagged(s, u, [ch] + rest)
  {
  }

  lemma {:induction false} FlagsParsed(fmt: CString, s: Scan, args: Args, flags: string) returns (t: Scan)
    requires Stands(fmt, s.i, flags) && forall i :: 0 <= i < |flags| ==> flags[i] in "-+ #0"
    requires !s.onP && s.spec.w in {-1, 0} && s.spec.zero == !s.zeroIsFlag
    ensures Leads(fmt, s, t, args) && Flagged(s, t, flags)
    decreases |flags|
  {
    t := s;
    if flags != "" {
      hide Turn, Parse, Stands;
      StandsFirst(fmt, s.i, flags);
      OneFlag(fmt, s, args, flags[0]);
      var next := Turn(fmt, s, args);
      t := FlagsParsed(fmt, next, args, flags[1..]);
      FlaggedThen(s, next, t, flags[0], flags[1..]);
      assert flags == [flags[0]] + flags[1..];
    }
  }

  /** A number is read digit by digit. */
  function Read(x: int, digits: string): int
    decreases |digits|
  {
    if digits == "" then x else Read((if x == -1 then 0 else x) * 10 + (digits[0] as int - 48), digits[1..])
  }

  lemma {:induction false} ReadSnoc(x: int, digits: string, c: char)
    requires x >= -1 && AllDecimal(digits)
    ensures var y := Read(x, digits);
      y >= -1 && (digits != "" ==> y >= 0) && Read(x, digits + [c]) == (if y == -1 then 0 else y) * 10 + (c as int - 48)
    decreases |digits|
  {
    if digits != "" {
      ReadSnoc((if x == -1 then 0 else x) * 10 + (digits[0] as int - 48), digits[1..], c);
      assert (digits + [c])[1..] == digits[1..] + [c];
    } else {
      assert digits + [c] == [c];
    }
  }

  lemma {:induction false} ReadIsValue(x: int, digits: string)
    requires x in {-1, 0} && AllDecimal(digits)
    ensures digits != "" ==> Read(x, digits) == ValueOf(digits, 10)
  {
    if digits != "" {
      var front, last := digits[..|digits| - 1], digits[|digits| - 1];
      ReadIsValue(x, front);
      ReadSnoc(x, front, last);
      assert digits == front + [last];
    }
  }

  lemma {:induction false} DigitsParsed(fmt: CString, s: Scan, args: Args, digits: string) returns (t: Scan)
    requires Stands(fmt, s.i, digits) && AllDecimal(digits) && (digits != "" && digits[0] == '0' ==> !s.zeroIsFlag)
    ensures Leads(fmt, s, t, args) && t.i == s.i + |digits| && t.arg == s.arg && t.onP == s.onP
    ensures t.spec == if s.onP then s.spec.(p := Read(s.spec.p, digits)) else s.spec.(w := Read(s.spec.w, digits))
    decreases |digits|
  {
    t := s;
    if digits != "" {
      hide Turn, Parse, Stands;
      StandsFirst(fmt, s.i, digits);
      OneDigit(fmt, s, args, digits[0]);
      var next := Turn(fmt, s, args);
      t := DigitsParsed(fmt, next, args, digits[1..]);
    }
  }

  lemma OneDigit(fmt: CString, s: Scan, args: Args, c: char)
    requires s.i < |fmt| && fmt[s.i] == c && '0' <= c <= '9' && (c == '0' ==> !s.zeroIsFlag)
    ensures var t, d := Turn(fmt, s, args), c as int - 48;
      && Leads(fmt, s, t, args) && t.i == s.i + 1 && t.arg == s.arg && t.onP == s.onP && !t.zeroIsFlag
      && t.spec == if s.onP then s.spec.(p := (if s.spec.p == -1 then 0 else s.spec.p) * 10 + d)
                   else s.spec.(w := (if s.spec.w == -1 then 0 else s.spec.w) * 10 + d)
  {
  }

  lemma StarParsed(fmt: CString, s: Scan, args: Args)
    requires Stands(fmt, s.i, "*")
    ensures s.i < |fmt|
    ensures var t, v := Turn(fmt, s, args), args(s.arg).i;
      && Leads(fmt, s, t, args) && t.i == s.i + 1 && t.arg == s.arg + 1 && t.onP == s.onP
      && t.spec == if s.onP then s.spec.(p := if v < 0 then -1 else v)
                   else if v < 0 then s.spec.(left := true, w := -v) else s.spec.(w := v)
  {
    StandsFirst(fmt, s.i, "*");
  }

  /** A width, or a precision behind its dot. */
  lemma AmountParsed(fmt: CString, s: Scan, args: Args, n: Amount) returns (t: Scan)
    requires Stands(fmt, s.i, AmountText(n)) && (if s.onP then s.spec.p == 0 else s.spec.w in {-1, 0})
    requires n.Number? ==> n.digits != "" && AllDecimal(n.digits) && (n.digits[0] == '0' ==> !s.zeroIsFlag)
    ensures Leads(fmt, s, t, args) && t.i == s.i + |AmountText(n)| && t.onP == s.onP
    ensures t.arg == if n.Star? then s.arg + 1 else s.arg
    ensures var v := args(s.arg).i;
      t.spec == match n
        case Unstated => s.spec
        case Number(digits) => if s.onP then s.spec.(p := ValueOf(digits, 10)) else s.spec.(w := ValueOf(digits, 10))
        case Star => if s.onP then s.spec.(p := if v < 0 then -1 else v)
                     else if v < 0 then s.spec.(left := true, w := -v) else s.spec.(w := v)
  {
    hide Turn, Parse;
    t := s;
    match n {
      case Unstated =>
      case Number(digits) =>
        t := DigitsParsed(fmt, s, args, digits);
        ReadIsValue(if s.onP then s.spec.p else s.spec.w, digits);
      case Star =>
        StarParsed(fmt, s, args);
        t := Turn(fmt, s, args);
    }
  }

  lemma DotParsed(fmt: CString, s: Scan, args: Args)
    requires Stands(fmt, s.i, ".")
    ensures s.i < |fmt|
    ensures var t := Turn(fmt, s, args);
      && Leads(fmt, s, t, args) && t.i == s.i + 1 && t.arg == s.arg && t.onP && !t.zeroIsFlag
      && t.spec == s.spec.(p := 0)
  {
    StandsFirst(fmt, s.i, ".");
  }

  /** The size that a length modifier gives. */
  function SizeNumber(size: string): nat {
    match size
    case "" => 0
    case "hh" => 1
    case "h" => 2
    case "ll" => 8
    case "j" => 8
    case "L" => 12
    case _ => 4
  }

  lemma OneLetter(fmt: CString, s: Scan, args: Args, c: char)
    requires s.i + 1 < |fmt| && fmt[s.i] == c && fmt[s.i + 1] != 'h' && fmt[s.i + 1] != 'l'
    requires c == 'h' || c == 'l' || c == 'j' || c == 'z' || c == 't' || c == 'L'
    ensures var t := Turn(fmt, s, args);
      && Leads(fmt, s, t, args) && t.i == s.i + 1 && t.arg == s.arg
      && t.spec == s.spec.(size := if c == 'h' then 2 else if c == 'j' then 8 else if c == 'L' then 12 else 4)
  {
  }

  lemma TwoLetters(fmt: CString, s: Scan, args: Args, c: char)
    requires s.i + 1 < |fmt| && fmt[s.i] == c && fmt[s.i + 1] == c && (c == 'h' || c == 'l')
    ensures var t := Turn(fmt, s, args);
      && Leads(fmt, s, t, args) && t.i == s.i + 2 && t.arg == s.arg
      && t.spec == s.spec.(size := if c == 'h' then 1 else 8)
  {
  }

  lemma SizeForm(size: string)
    requires IsSize(size)
    ensures |size| <= 2 && (|size| == 0 ==> SizeNumber(size) == 0)
    ensures |size| == 1 ==>
      var c := size[0];
      && (c == 'h' || c == 'l' || c == 'j' || c == 'z' || c == 't' || c == 'L')
      && SizeNumber(size) == if c == 'h' then 2 else if c == 'j' then 8 else if c == 'L' then 12 else 4
    ensures |size| == 2 ==>
      size[0] == size[1] && (size[0] == 'h' || size[0] == 'l') && SizeNumber(size) == if size[0] == 'h' then 1 else 8
  {
  }

  lemma SizeParsed(fmt: CString, s: Scan, args: Args, size: string, conv: char) returns (t: Scan)
    requires Stands(fmt, s.i, size) && Stands(fmt, s.i + |size|, [conv]) && conv != 'h' && conv != 'l'
    requires IsSize(size) && s.spec.size == 0
    ensures Leads(fmt, s, t, args) && t.i == s.i + |size| && t.arg == s.arg
    ensures t.spec == s.spec.(size := SizeNumber(size))
  {
    hide IsSize, SizeNumber;
    SizeForm(size);
    StandsFirst(fmt, s.i + |size|, [conv]);
    t := s;
    if |size| == 1 {
      StandsFirst(fmt, s.i, size);
      hide Turn, Parse, Stands;
      OneLetter(fmt, s, args, size[0]);
      t := Turn(fmt, s, args);
    } else if |size| == 2 {
      StandsFirst(fmt, s.i, size);
      StandsFirst(fmt, s.i + 1, size[1..]);
      hide Turn, Parse, Stands;
      TwoLetters(fmt, s, args, size[0]);
      t := Turn(fmt, s, args);
    }
  }

  // ---------------------------------------------------------------------------------------------
  // Whole directives

  lemma Positions(fmt: string, i: nat, d: Directive)
    requires Stands(fmt, i, Written(d))
    ensures var f := i + 1; var w := f + |d.flags|; var k := w + |AmountText(d.width)|;
      var z := k + if d.dot then 1 + |AmountText(d.precision)| else 0;
      && Stands(fmt, i, "%") && Stands(fmt, f, d.flags) && Stands(fmt, w, AmountText(d.width))
      && (d.dot ==> Stands(fmt, k, ".") && Stands(fmt, k + 1, AmountText(d.precision)))
      && Stands(fmt, z, d.size) && Stands(fmt, z + |d.size|, [d.conv])
      && i + |Written(d)| == z + |d.size| + 1
  {
    hide Stands;
    var a, b := "%" + d.flags, AmountText(d.width);
    var c := if d.dot then "." + AmountText(d.precision) else "";
    StandsConcat(fmt, i, a + b + c + d.size, [d.conv]);
    StandsConcat(fmt, i, a + b + c, d.size);
    StandsConcat(fmt, i, a + b, c);
    StandsConcat(fmt, i, a, b);
    StandsConcat(fmt, i, "%", d.flags);
    if d.dot { StandsConcat(fmt, i + |a + b|, ".", AmountText(d.precision)); }
  }

  /** Flags and width of a directive are parsed. */
  ghost predicate FrontDone(spec: Spec, d: Directive, args: Args, a: nat) {
    && spec.left == IsLeft(d, args, a) && spec.zero == ('0' in d.flags)
    && spec.plus == ('+' in d.flags) && spec.space == (' ' in d.flags) && spec.alt == ('#' in d.flags)
    && (if spec.w == -1 then 0 else spec.w) == WidthOf(d, args, a) && spec.p == -1 && spec.size == 0
  }

  lemma FrontParsed(fmt: CString, s: Scan, args: Args, d: Directive) returns (t: Scan)
    requires Proper(d) && Stands(fmt, s.i, d.flags) && Stands(fmt, s.i + |d.flags|, AmountText(d.width))
    requires s.spec == Plain && !s.onP && s.zeroIsFlag
    ensures Leads(fmt, s, t, args) && t.i == s.i + |d.flags| + |AmountText(d.width)| && !t.onP
    ensures t.arg == SecondArg(d, s.arg) && FrontDone(t.spec, d, args, s.arg)
  {
    hide Parse, Turn, Stands, ValueOf, IsSize;
    var s1 := FlagsParsed(fmt, s, args, d.flags);
    t := AmountParsed(fmt, s1, args, d.width);
    if d.width.Number? { DecimalValue(d.width.digits); }
  }

  lemma BackParsed(fmt: CString, s: Scan, args: Args, a: nat, d: Directive) returns (t: Scan)
    requires Proper(d) && FrontDone(s.spec, d, args, a) && !s.onP && s.arg == SecondArg(d, a)
    requires d.dot ==> Stands(fmt, s.i, ".") && Stands(fmt, s.i + 1, AmountText(d.precision))
    requires var z := s.i + if d.dot then 1 + |AmountText(d.precision)| else 0;
      s.i <= |fmt| && Stands(fmt, z, d.size) && Stands(fmt, z + |d.size|, [d.conv])
    ensures Leads(fmt, s, t, args) && t.arg == ValueArg(d, a) && Parsed(t.spec, d, args, a)
    ensures t.i == s.i + (if d.dot then 1 + |AmountText(d.precision)| else 0) + |d.size|
  {
    hide Parse, Turn, Stands, IsLeft, WidthOf, AllDecimal, ValueOf, IsSize;
    var s1 := s;
    if d.dot {
      DotParsed(fmt, s, args);
      s1 := AmountParsed(fmt, Turn(fmt, s, args), args, d.precision);
    }
    t := SizeParsed(fmt, s1, args, d.size, d.conv);
  }

  /** What a written directive is parsed to. */
  lemma DirectiveParsed(fmt: CString, i: nat, args: Args, a: nat, d: Directive)
    requires Proper(d) && Stands(fmt, i, Written(d))
    ensures i < |fmt| && fmt[i] == '%' && i + |Written(d)| <= |fmt|
    ensures var s := SpecAt(fmt, i, args, a);
      && s.i == i + |Written(d)| - 1 && fmt[s.i] == d.conv && s.arg == ValueArg(d, a) && Parsed(s.spec, d, args, a)
  {
    hide Stands, Parsed, FrontDone, Proper, Written, ValueArg, SecondArg, Parse, AmountText;
    Positions(fmt, i, d);
    StandsFirst(fmt, i, "%");
    var s0 := Scanning.(i := i + 1, arg := a);
    var s1 := FrontParsed(fmt, s0, args, d);
    var s2 := BackParsed(fmt, s1, args, a, d);
    StandsFirst(fmt, s2.i, [d.conv]);
    ConversionEnds(fmt, s2, args, d);
  }

  lemma ConversionEnds(fmt: CString, s: Scan, args: Args, d: Directive)
    requires Proper(d) && s.i < |fmt| && fmt[s.i] == d.conv
    ensures Parse(fmt, s, args) == s
  {
  }

  /** A directive in a format: its text comes next, and the rest goes on behind it with the arguments behind its
      own. */
  lemma DirectiveRendered(fmt: CString, i: nat, args: Args, a: nat, d: Directive) returns (text: string)
    requires Proper(d) && Stands(fmt, i, Written(d))
    ensures Shows(text, d, args, a) && i + |Written(d)| <= |fmt|
    ensures var rest := Render(fmt, i + |Written(d)|, args, ValueArg(d, a) + 1);
      Render(fmt, i, args, a) == Rendered(text + rest.text, rest.ok)
  {
    hide Convert, SpecAt, Parsed, Shows, Written, Stands, ValueArg, Render, IsConversion, Proper;
    DirectiveParsed(fmt, i, args, a, d);
    var s := SpecAt(fmt, i, args, a);
    Convertible(d);
    text := Convert(s.spec, d.conv, args(s.arg));
    ConvertShown(text, s.spec, d, args, a);
    ConversionRendered(fmt, i, args, a);
  }

  lemma ConversionRendered(fmt: CString, i: nat, args: Args, a: nat)
    requires i < |fmt| && fmt[i] == '%' && SpecAt(fmt, i, args, a).i < |fmt|
    requires IsConversion(fmt[SpecAt(fmt, i, args, a).i])
    ensures var s := SpecAt(fmt, i, args, a);
      var rest := Render(fmt, s.i + 1, args, if fmt[s.i] == '%' then s.arg else s.arg + 1);
      Render(fmt, i, args, a) == Rendered(Convert(s.spec, fmt[s.i], args(s.arg)) + rest.text, rest.ok)
  {
    hide Convert, SpecAt, IsConversion;
  }

  lemma Convertible(d: Directive)
    requires Proper(d)
    ensures IsConversion(d.conv) && d.conv != '%'
  {
  }

  // ---------------------------------------------------------------------------------------------
  // Whole formats

  /** A part of a format: a character that stands for itself, a doubled percent sign, or a directive. */
  datatype Piece = Itself(c: char) | Percent | Field(d: Directive)

  function PieceText(p: Piece): string {
    match p
    case Itself(c) => [c]
    case Percent => "%%"
    case Field(d) => Written(d)
  }

  function FormatOf(pieces: seq<Piece>): string {
    if pieces == [] then "" else PieceText(pieces[0]) + FormatOf(pieces[1..])
  }

  /** Number of the argument behind those of the piece. */
  function Behind(p: Piece, a: nat): nat {
    if p.Field? then ValueArg(p.d, a) + 1 else a
  }

  /** `text` is what the pieces stand for, one behind the other. */
  ghost predicate Spells(text: string, pieces: seq<Piece>, args: Args, a: nat)
    decreases |pieces|
  {
    if pieces == [] then text == ""
    else
      exists k: nat :: k <= |text| && PieceShows(text[..k], pieces[0], args, a)
                       && Spells(text[k..], pieces[1..], args, Behind(pieces[0], a))
  }

  ghost predicate PieceShows(text: string, p: Piece, args: Args, a: nat) {
    match p
    case Itself(c) => text == [c]
    case Percent => text == "%"
    case Field(d) => Shows(text, d, args, a)
  }

  predicate ProperPiece(p: Piece) {
    match p
    case Itself(c) => c != '%'
    case Percent => true
    case Field(d) => Proper(d)
  }

  lemma PieceRendered(fmt: CString, i: nat, args: Args, a: nat, p: Piece) returns (text: string)
    requires ProperPiece(p) && Stands(fmt, i, PieceText(p))
    ensures i + |PieceText(p)| <= |fmt| && PieceShows(text, p, args, a)
    ensures var rest := Render(fmt, i + |PieceText(p)|, args, Behind(p, a));
      Render(fmt, i, args, a) == Rendered(text + rest.text, rest.ok)
  {
    hide Stands, Render, Proper, Shows, Written, ValueArg;
    match p {
      case Itself(c) =>
        ItselfRendered(fmt, i, args, a, c);
        text := [c];
      case Percent =>
        PercentRendered(fmt, i, args, a);
        text := "%";
      case Field(d) =>
        text := DirectiveRendered(fmt, i, args, a, d);
    }
  }

  lemma ItselfRendered(fmt: CString, i: nat, args: Args, a: nat, c: char)
    requires Stands(fmt, i, [c]) && c != '%'
    ensures i + 1 <= |fmt|
    ensures var rest := Render(fmt, i + 1, args, a); Render(fmt, i, args, a) == Rendered([c] + rest.text, rest.ok)
  {
    StandsFirst(fmt, i, [c]);
    hide Stands;
  }

  lemma PercentRendered(fmt: CString, i: nat, args: Args, a: nat)
    requires Stands(fmt, i, "%%")
    ensures i + 2 <= |fmt|
    ensures var rest := Render(fmt, i + 2, args, a); Render(fmt, i, args, a) == Rendered("%" + rest.text, rest.ok)
  {
    StandsFirst(fmt, i, "%%");
    StandsFirst(fmt, i + 1, "%");
    assert SpecAt(fmt, i, args, a) == Scanning.(i := i + 1, arg := a);
    hide SpecAt, Render, Stands;
    ConversionRendered(fmt, i, args, a);
  }

  /** A format made of such pieces produces their texts, one behind the other, each with its own arguments. */
  lemma {:induction false} FormatSpelled(fmt: CString, i: nat, args: Args, a: nat, pieces: seq<Piece>)
    requires Stands(fmt, i, FormatOf(pieces)) && i + |FormatOf(pieces)| == |fmt|
    requires forall k :: 0 <= k < |pieces| ==> ProperPiece(pieces[k])
    ensures Render(fmt, i, args, a).ok && Spells(Render(fmt, i, args, a).text, pieces, args, a)
    decreases |pieces|
  {
    hide Render, Stands, PieceText, PieceShows, ProperPiece, Behind;
    if pieces == [] {
      RenderedEnd(fmt, args, a);
    } else {
      StandsConcat(fmt, i, PieceText(pieces[0]), FormatOf(pieces[1..]));
      var text := PieceRendered(fmt, i, args, a, pieces[0]);
      var j, b := i + |PieceText(pieces[0])|, Behind(pieces[0], a);
      FormatSpelled(fmt, j, args, b, pieces[1..]);
      var rest := Render(fmt, j, args, b).text;
      assert (text + rest)[..|text|] == text && (text + rest)[|text|..] == rest;
    }
  }

  /** A directive that ends in any other character stops the format there. */
  lemma UnknownStops(fmt: CString, i: nat, args: Args, a: nat, c: char)
    requires Stands(fmt, i, ['%', c]) && c !in "-+ #.*hljztL%scdiuoxXbBp" && !('0' <= c <= '9')
    ensures i <= |fmt| && Render(fmt, i, args, a) == Rendered("", false)
  {
    StandsFirst(fmt, i, ['%', c]);
    StandsFirst(fmt, i + 1, [c]);
    assert SpecAt(fmt, i, args, a) == Scanning.(i := i + 1, arg := a);
  }

  lemma RenderedEnd(fmt: CString, args: Args, a: nat)
    ensures Render(fmt, |fmt|, args, a) == Rendered("", true)
  {
  }

  /** The whole of a format, as `snprintf` produces it. */
  lemma WholeFormat(fmt: CString, args: Args, pieces: seq<Piece>)
    requires fmt == FormatOf(pieces) && forall k :: 0 <= k < |pieces| ==> ProperPiece(pieces[k])
    ensures Render(fmt, 0, args, 0).ok && Spells(Render(fmt, 0, args, 0).text, pieces, args, 0)
  {
    assert fmt[0..|fmt|] == fmt;
    FormatSpelled(fmt, 0, args, 0, pieces);
  }
}
