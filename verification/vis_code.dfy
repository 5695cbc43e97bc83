/** src/bin/csh/vis.c: the encoding of one character, and a decoder for it. */
module VisCode {

  type Byte = x: int | 0 <= x < 256

  type Bytes = seq<Byte>

  /** The VIS_ flags. */
  datatype Flags = Flags(octal: bool, cstyle: bool, sp: bool, tab: bool, nl: bool, safe: bool, noslash: bool,
                         dq: bool, glob: bool, all: bool)

  const SLASH: Byte := '\\' as int
  const QUOTE: Byte := '"' as int
  const META: Byte := 'M' as int
  const CARET: Byte := '^' as int
  const DASH: Byte := '-' as int
  const DEL: Byte := 127
  const BELL: Byte := 7
  const BACKSPACE: Byte := 8
  const TAB: Byte := 9
  const NEWLINE: Byte := 10
  const VTAB: Byte := 11
  const FORMFEED: Byte := 12
  const RETURN: Byte := 13
  const SPACE: Byte := 32

  predicate IsOctal(c: Byte) {
    '0' as int <= c <= '7' as int
  }

  /** isgraph and iscntrl in the C locale. */
  predicate IsGraph(c: Byte) {
    33 <= c <= 126
  }

  predicate IsCntrl(c: Byte) {
    c < 32 || c == DEL
  }

  predicate IsGlob(c: Byte) {
    c == '*' as int || c == '?' as int || c == '[' as int || c == '#' as int
  }

  /** The macro isvisible. */
  predicate IsVisible(c: Byte, f: Flags) {
    && (c == SLASH || !f.all)
    && (|| (c < 128 && (!IsGlob(c) || !f.glob) && IsGraph(c))
        || (!f.sp && c == SPACE)
        || (!f.tab && c == TAB)
        || (!f.nl && c == NEWLINE)
        || (f.safe && (c == BACKSPACE || c == BELL || c == RETURN || IsGraph(c))))
  }

  /** The letter of a C escape, or none. */
  function Letter(c: Byte): Byte {
    if c == NEWLINE then 'n' as int
    else if c == RETURN then 'r' as int
    else if c == BACKSPACE then 'b' as int
    else if c == BELL then 'a' as int
    else if c == VTAB then 'v' as int
    else if c == TAB then 't' as int
    else if c == FORMFEED then 'f' as int
    else if c == SPACE then 's' as int
    else 0
  }

  /** What ^ or - and one more byte make of a character below 128. */
  function Caret(c: Byte): Bytes
    requires c < 128
  {
    if IsCntrl(c) then [CARET, if c == DEL then '?' as int else c + '@' as int] else [DASH, c]
  }

  function Octal(c: Byte): Bytes {
    [SLASH, c / 64 + '0' as int, c / 8 % 8 + '0' as int, c % 8 + '0' as int]
  }

  /** The M, ^ and - forms. */
  function Marked(c: Byte, f: Flags): Bytes {
    (if f.noslash then [] else [SLASH]) + if c >= 128 then [META] + Caret(c - 128) else Caret(c)
  }

  /** What vis makes of the character c, with the character that comes after it. */
  function VisOf(c: Byte, f: Flags, nextc: Byte): Bytes {
    if IsVisible(c, f) then
      if (c == QUOTE && f.dq) || (c == SLASH && !f.noslash) then [SLASH, c] else [c]
    else if f.cstyle && Letter(c) != 0 then [SLASH, Letter(c)]
    else if f.cstyle && c == 0 then
      if IsOctal(nextc) then [SLASH, '0' as int, '0' as int, '0' as int] else [SLASH, '0' as int]
    else if c % 128 == SPACE || f.octal || (f.glob && IsGlob(c)) then Octal(c)
    else Marked(c, f)
  }

  /** No character takes more than four bytes, and none takes none. */
  lemma VisSize(c: Byte, f: Flags, nextc: Byte)
    ensures 1 <= |VisOf(c, f, nextc)| <= 4
  {
  }

  /** c itself, perhaps behind a backslash. */
  predicate Literal(t: Bytes, c: Byte) {
    (|t| == 1 && t[0] == c) || (|t| == 2 && t[0] == SLASH && t[1] == c)
  }

  /** Which characters each flag has encoded. */
  lemma LiteralWhen(c: Byte, f: Flags, nextc: Byte)
    ensures f.all ==> (Literal(VisOf(c, f, nextc), c) <==> c == '\\' as int)
    ensures !f.all && c == ' ' as int ==> (Literal(VisOf(c, f, nextc), c) <==> !f.sp)
    ensures !f.all && c == '\t' as int ==> (Literal(VisOf(c, f, nextc), c) <==> !f.tab)
    ensures !f.all && c == '\n' as int ==> (Literal(VisOf(c, f, nextc), c) <==> !f.nl)
    ensures !f.all && (c == 7 || c == 8 || c == '\r' as int) ==> (Literal(VisOf(c, f, nextc), c) <==> f.safe)
    ensures !f.all && IsGlob(c) ==> (Literal(VisOf(c, f, nextc), c) <==> !f.glob || f.safe)
    ensures !f.all && ' ' as int < c < 127 && !IsGlob(c) ==> Literal(VisOf(c, f, nextc), c)
    ensures c < 7 || 11 <= c <= 12 || 14 <= c < 32 || c >= 127 ==> !Literal(VisOf(c, f, nextc), c)
  {
  }

  /** The backslash in front of a literal character. */
  lemma BackslashWhen(c: Byte, f: Flags, nextc: Byte)
    requires Literal(VisOf(c, f, nextc), c)
    ensures |VisOf(c, f, nextc)| == 2 <==> (c == '"' as int && f.dq) || (c == '\\' as int && !f.noslash)
  {
  }

  /** The characters that have a C escape. */
  predicate HasEscape(c: Byte) {
    c == 0 || 7 <= c <= 13 || c == ' ' as int
  }

  /** Which encoding a character gets that is not left as it is: a C escape, three octal digits, or
      one of the forms with a caret or a dash, with M for the eighth bit. */
  lemma FormWhen(c: Byte, f: Flags, nextc: Byte)
    requires !Literal(VisOf(c, f, nextc), c)
    ensures var t, octal, k := VisOf(c, f, nextc), c == 32 || c == 160 || f.octal || (f.glob && IsGlob(c)), if f.noslash then 0 else 1;
      && (f.cstyle && c == 0 ==> t == if '0' as int <= nextc <= '7' as int then [SLASH, 48, 48, 48] else [SLASH, 48])
      && (f.cstyle && HasEscape(c) && c != 0 ==> |t| == 2 && t[0] == SLASH && 'a' as int <= t[1] <= 'z' as int)
      && (!(f.cstyle && HasEscape(c)) && octal ==> |t| == 4 && t[0] == SLASH && forall i :: 1 <= i < 4 ==> '0' as int <= t[i] <= '7' as int)
      && (!(f.cstyle && HasEscape(c)) && !octal ==> |t| >= k + 2 && (k == 1 ==> t[0] == SLASH) && (t[k] == 'M' as int <==> c >= 128))
  {
  }

  // The decoder

  /** A decoded character and the number of bytes it took. */
  datatype Decoded = Bad | Got(c: Byte, n: nat)

  function FromLetter(l: Byte): Byte {
    if l == 'n' as int then NEWLINE
    else if l == 'r' as int then RETURN
    else if l == 'b' as int then BACKSPACE
    else if l == 'a' as int then BELL
    else if l == 'v' as int then VTAB
    else if l == 't' as int then TAB
    else if l == 'f' as int then FORMFEED
    else if l == 's' as int then SPACE
    else 0
  }

  /** The ^ and - forms, at k; high is what M stands for. */
  function Unmark(t: Bytes, k: nat, high: nat): Decoded
    requires high == 0 || high == 128
  {
    if k + 1 >= |t| then Bad
    else if t[k] == CARET && t[k + 1] == '?' as int then Got(high + 127, k + 2)
    else if t[k] == CARET && '@' as int <= t[k + 1] < '@' as int + 32 then Got(high + t[k + 1] - '@' as int, k + 2)
    else if t[k] == DASH && t[k + 1] < 128 then Got(high + t[k + 1], k + 2)
    else Bad
  }

  function MarkedAt(t: Bytes, k: nat): Decoded {
    if k < |t| && t[k] == META then Unmark(t, k + 1, 128) else Unmark(t, k, 0)
  }

  /** The first character of t. Without slashes, a backslash that starts no escape stands for itself. */
  function DecodeOne(t: Bytes, noslash: bool): Decoded
    requires t != []
  {
    if t[0] != SLASH then if noslash then MarkedAt(t, 0) else Got(t[0], 1)
    else if |t| > 1 && FromLetter(t[1]) != 0 then Got(FromLetter(t[1]), 2)
    else if |t| > 1 && IsOctal(t[1]) then
      if |t| > 3 && IsOctal(t[2]) && IsOctal(t[3]) && t[1] <= '3' as int then
        Got((t[1] - '0' as int) * 64 + (t[2] - '0' as int) * 8 + (t[3] - '0' as int), 4)
      else if |t| > 2 && IsOctal(t[2]) then Bad
      else Got(0, 2)
    else if noslash then Got(SLASH, 1)
    else if |t| > 1 && (t[1] == SLASH || t[1] == QUOTE) then Got(t[1], 2)
    else MarkedAt(t, 1)
  }

  /** Whether the encoding can be taken apart again: without slashes, everything must be encoded. */
  predicate Clear(f: Flags) {
    !f.noslash || f.all
  }

  /** The first byte of an encoding. */
  predicate Starts(b: Byte, c: Byte, f: Flags) {
    b == SLASH || (f.noslash && (b == META || b == CARET || b == DASH)) || (b == c && !f.all)
  }

  lemma FirstByte(c: Byte, f: Flags, nextc: Byte)
    ensures Starts(VisOf(c, f, nextc)[0], c, f)
  {
  }

  /** What may come after the encoding of a character that is followed by nextc. */
  predicate Follows(u: Bytes, f: Flags, nextc: Byte) {
    u == [] || Starts(u[0], nextc, f)
  }

  lemma OctalBack(c: Byte, u: Bytes, noslash: bool)
    ensures DecodeOne(Octal(c) + u, noslash) == Got(c, 4)
  {
    var t := Octal(c) + u;
    assert t[0] == SLASH && t[1] == c / 64 + '0' as int && t[2] == c / 8 % 8 + '0' as int && t[3] == c % 8 + '0' as int;
    assert c / 64 * 64 + c / 8 % 8 * 8 + c % 8 == c;
  }

  lemma CaretBack(c: Byte, t: Bytes, k: nat, high: nat)
    requires c < 128 && (high == 0 || high == 128) && k + 2 <= |t| && t[k] == Caret(c)[0] && t[k + 1] == Caret(c)[1]
    ensures Unmark(t, k, high) == Got(high + c, k + 2)
  {
  }

  lemma MarkedBack(c: Byte, f: Flags, u: Bytes)
    ensures DecodeOne(Marked(c, f) + u, f.noslash) == Got(c, |Marked(c, f)|)
  {
    var m, t := Marked(c, f), Marked(c, f) + u;
    var k := if f.noslash then 0 else 1;
    if c >= 128 {
      assert t[k] == META && t[k + 1] == Caret(c - 128)[0] && t[k + 2] == Caret(c - 128)[1];
      CaretBack(c - 128, t, k + 1, 128);
    } else {
      assert t[k] == Caret(c)[0] && t[k + 1] == Caret(c)[1];
      CaretBack(c, t, k, 0);
    }
  }

  /** The decoder gives every character back, whatever comes after it. */
  lemma VisBack(c: Byte, f: Flags, nextc: Byte, u: Bytes)
    requires Clear(f) && Follows(u, f, nextc)
    ensures DecodeOne(VisOf(c, f, nextc) + u, f.noslash) == Got(c, |VisOf(c, f, nextc)|)
  {
    var v := VisOf(c, f, nextc);
    var t := v + u;
    if IsVisible(c, f) {
      assert t[0] == v[0] && (|v| > 1 ==> t[1] == v[1]) && (|v| == 1 && u != [] ==> t[1] == u[0]);
    } else if f.cstyle && (Letter(c) != 0 || c == 0) {
      assert t[0] == v[0] && t[1] == v[1] && (|v| == 2 && u != [] ==> t[2] == u[0]);
      if |v| == 4 {
        assert t[2] == v[2] && t[3] == v[3];
      }
    } else if c % 128 == SPACE || f.octal || (f.glob && IsGlob(c)) {
      OctalBack(c, u, f.noslash);
    } else {
      MarkedBack(c, f, u);
    }
  }
}
