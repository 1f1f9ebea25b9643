/** A client of `snprintf`: what it finds in its buffer. */
module FormatClient {
  import opened Format
  import opened FormatText
  import opened FormatPieces
  import opened Sprintf

  /** A format of ordinary characters, percent signs and directives is written into a buffer of `n` characters: the
      texts of its pieces, as far as they fit, a null behind them, and nothing from `n` on; the result is the length of
      the whole. */
  method PrintPieces(buf: array<char>, n: nat, fmt: CString, args: Args, ghost pieces: seq<Piece>)
    returns (res: int, ghost text: string)
    requires n <= buf.Length && Fits(fmt, 0, args, 0)
    requires fmt == FormatOf(pieces) && forall k :: 0 <= k < |pieces| ==> ProperPiece(pieces[k])
    modifies buf
    ensures Spells(text, pieces, args, 0) && res == |text|
    ensures n > 0 ==>
      var k := if |text| < n then |text| else n - 1;
      buf[..k] == text[..k] && buf[k] == '\0' && buf[k + 1..] == old(buf[k + 1..])
    ensures n == 0 ==> buf[..] == old(buf[..])
  {
    hide Render, Spells, FormatOf, Fits;
    WholeFormat(fmt, args, pieces);
    text := Render(fmt, 0, args, 0).text;
    res := Snprintf(buf, n, fmt, args);
  }
}
