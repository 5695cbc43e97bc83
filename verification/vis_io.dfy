/** src/bin/csh/vis.c: the functions that write encodings into a buffer. */
module VisIo {
  import opened Seqs
  import opened VisCode
  import opened VisText

  /** One byte goes to the place d, and d moves on. */
  method Put(dst: array<Byte>, d: nat, b: Byte) returns (e: nat)
    requires d < dst.Length
    modifies dst
    ensures e == d + 1 && dst[..e] == old(dst[..d]) + [b]
  {
    dst[d] := b;
    e := d + 1;
  }

  /** Two bytes. */
  method Put2(dst: array<Byte>, d: nat, a: Byte, b: Byte) returns (e: nat)
    requires d + 2 <= dst.Length
    modifies dst
    ensures e == d + 2 && dst[..e] == old(dst[..d]) + [a, b]
  {
    e := Put(dst, d, a);
    e := Put(dst, e, b);
  }

  /** The ^ and - forms. */
  method PutCaret(dst: array<Byte>, d: nat, c: Byte) returns (e: nat)
    requires c < 128 && d + 2 <= dst.Length
    modifies dst
    ensures e == d + 2 && dst[..e] == old(dst[..d]) + Caret(c)
  {
    if IsCntrl(c) {
      if c == DEL {
        e := Put2(dst, d, CARET, '?' as int);
      } else {
        e := Put2(dst, d, CARET, c + '@' as int);
      }
    } else {
      e := Put2(dst, d, DASH, c);
    }
  }

  /** The M, ^ and - forms. */
  method PutMarked(dst: array<Byte>, d: nat, c0: Byte, f: Flags) returns (e: nat)
    requires d + |Marked(c0, f)| <= dst.Length
    modifies dst
    ensures e == d + |Marked(c0, f)| && dst[..e] == old(dst[..d]) + Marked(c0, f)
  {
    var c := c0;
    e := d;
    ghost var was := dst[..d];
    if !f.noslash {
      e := Put(dst, e, SLASH);
    }
    ghost var slash := if f.noslash then [] else [SLASH];
    assert dst[..e] == was + slash;
    if c >= 128 {
      c := c - 128;
      e := Put(dst, e, META);
    }
    ghost var meta := if c0 >= 128 then [META] else [];
    assert dst[..e] == was + slash + meta;
    e := PutCaret(dst, e, c);
    assert Marked(c0, f) == slash + (meta + Caret(c));
    hide Caret, Marked;
    Assoc(was, slash, meta + Caret(c));
    Assoc(was + slash, meta, Caret(c));
  }

  /** vis */
  method Vis(dst: array<Byte>, d: nat, c: Byte, f: Flags, nextc: Byte) returns (e: nat)
    requires d + |VisOf(c, f, nextc)| < dst.Length
    modifies dst
    ensures e == d + |VisOf(c, f, nextc)| && dst[..e] == old(dst[..d]) + VisOf(c, f, nextc) && dst[e] == 0
  {
    if IsVisible(c, f) {
      if (c == QUOTE && f.dq) || (c == SLASH && !f.noslash) {
        e := Put2(dst, d, SLASH, c);
      } else {
        e := Put(dst, d, c);
      }
    } else if f.cstyle && Letter(c) != 0 {
      e := Put2(dst, d, SLASH, Letter(c));
    } else if f.cstyle && c == 0 {
      e := Put2(dst, d, SLASH, '0' as int);
      if IsOctal(nextc) {
        e := Put2(dst, e, '0' as int, '0' as int);
      }
    } else if c % 128 == SPACE || f.octal || (f.glob && IsGlob(c)) {
      e := Put2(dst, d, SLASH, c / 64 + '0' as int);
      e := Put2(dst, e, c / 8 % 8 + '0' as int, c % 8 + '0' as int);
    } else {
      e := PutMarked(dst, d, c, f);
    }
    dst[e] := 0;
  }

  /** strvisx, and strvis for a block without NULs: dst is four times as large, and one more. */
  method Strvisx(dst: array<Byte>, src: Bytes, f: Flags) returns (n: nat)
    requires dst.Length >= 4 * |src| + 1
    modifies dst
    ensures n == |Encoded(src, f, |src|)| <= 4 * |src| && dst[..n] == Encoded(src, f, |src|) && dst[n] == 0
    ensures Clear(f) ==> Decode(dst[..n], f.noslash) == Decoded(src)
  {
    var d, i := 0, 0;
    while i < |src|
      invariant 0 <= i <= |src| && d == |Encoded(src, f, i)| <= 4 * i && dst[..d] == Encoded(src, f, i)
    {
      EncodedSize(src, f, i + 1);
      VisSize(src[i], f, NextOf(src, i));
      d := Vis(dst, d, src[i], f, if i + 1 < |src| then src[i + 1] else 0);
      i := i + 1;
    }
    dst[d] := 0;
    n := d;
    if Clear(f) {
      DecodeEncoded(src, f);
    }
  }

  /** How far strnvis gets: k characters are stored, and the next one has no room. */
  ghost predicate Stored(dst: array<Byte>, src: Bytes, f: Flags, k: nat, d: nat)
    reads dst
  {
    k <= |src| && d == |Encoded(src, f, k)| && d <= dst.Length && dst[..d] == Encoded(src, f, k)
  }

  lemma VisibleCode(c: Byte, f: Flags, nextc: Byte)
    requires IsVisible(c, f)
    ensures VisOf(c, f, nextc) == if (c == QUOTE && f.dq) || (c == SLASH && !f.noslash) then [SLASH, c] else [c]
  {
  }

  /** strnvis, for a visible character. */
  method StoreVisible(dst: array<Byte>, src: Bytes, f: Flags, k0: nat, d0: nat) returns (k: nat, d: nat, i: nat, stop: bool)
    requires Stored(dst, src, f, k0, d0) && k0 < |src| && d0 < dst.Length - 1 && IsVisible(src[k0], f)
    modifies dst
    ensures i > 0 && Stored(dst, src, f, k, d) && d <= dst.Length - 1
    ensures stop ==> k == k0 && d + i > dst.Length - 1 && |Encoded(src, f, k + 1)| > dst.Length - 1
    ensures !stop ==> k == k0 + 1
  {
    VisibleCode(src[k0], f, NextOf(src, k0));
    hide VisOf, IsVisible;
    var end := dst.Length - 1;
    var c := src[k0];
    k, d, stop := k0, d0, false;
    if (c == QUOTE && f.dq) || (c == SLASH && !f.noslash) {
      if d + 1 >= end {
        return k, d, 2, true;
      }
      d := Put2(dst, d, SLASH, c);
    } else {
      d := Put(dst, d, c);
    }
    i := 1;
    k := k + 1;
  }

  /** memcpy, from the start of another array */
  method Memcpy(dst: array<Byte>, d: nat, from: array<Byte>, n: nat)
    requires dst != from && d + n <= dst.Length && n <= from.Length
    modifies dst
    ensures dst[..d + n] == old(dst[..d]) + from[..n]
  {
    forall j | 0 <= j < n {
      dst[d + j] := from[j];
    }
  }

  /** strnvis, for any other character. */
  method StoreCode(dst: array<Byte>, src: Bytes, f: Flags, k0: nat, d0: nat) returns (k: nat, d: nat, i: nat, stop: bool)
    requires Stored(dst, src, f, k0, d0) && k0 < |src| && d0 < dst.Length - 1
    modifies dst
    ensures i > 0 && Stored(dst, src, f, k, d) && d <= dst.Length - 1
    ensures stop ==> k == k0 && d + i > dst.Length - 1 && |Encoded(src, f, k + 1)| > dst.Length - 1
    ensures !stop ==> k == k0 + 1
  {
    VisSize(src[k0], f, NextOf(src, k0));
    hide VisOf;
    var end := dst.Length - 1;
    k, d, stop := k0, d0, false;
    var tbuf := new Byte[5];
    i := Vis(tbuf, 0, src[k], f, if k + 1 < |src| then src[k + 1] else 0);
    assert tbuf[..i] == [] + CodeAt(src, f, k0) == CodeAt(src, f, k0);
    if d + i <= end {
      Memcpy(dst, d, tbuf, i);
      d := d + i;
      k := k + 1;
    } else {
      stop := true;
    }
  }

  /** The body of the loop of strnvis; stop tells that there is no room for the character at k0, and
      i is at least what it would take. */
  method StoreOne(dst: array<Byte>, src: Bytes, f: Flags, k0: nat, d0: nat) returns (k: nat, d: nat, i: nat, stop: bool)
    requires Stored(dst, src, f, k0, d0) && k0 < |src| && d0 < dst.Length - 1
    modifies dst
    ensures i > 0 && Stored(dst, src, f, k, d) && d <= dst.Length - 1
    ensures stop ==> k == k0 && d + i > dst.Length - 1 && |Encoded(src, f, k + 1)| > dst.Length - 1
    ensures !stop ==> k == k0 + 1
  {
    hide VisOf, IsVisible, Stored, Encoded;
    if IsVisible(src[k0], f) {
      k, d, i, stop := StoreVisible(dst, src, f, k0, d0);
    } else {
      k, d, i, stop := StoreCode(dst, src, f, k0, d0);
    }
  }

  /** The loop of strnvis that goes on counting, with d moving past the end of the buffer. */
  method CountOn(src: Bytes, f: Flags, k0: nat, d0: nat) returns (d: nat)
    requires k0 <= |src| && d0 == |Encoded(src, f, k0)|
    ensures d == |Encoded(src, f, |src|)|
  {
    var k := k0;
    d := d0;
    var tbuf := new Byte[5];
    while k < |src|
      invariant k0 <= k <= |src| && d == |Encoded(src, f, k)|
    {
      VisSize(src[k], f, NextOf(src, k));
      var e := Vis(tbuf, 0, src[k], f, if k + 1 < |src| then src[k + 1] else 0);
      d := d + e;
      k := k + 1;
    }
  }

  /** strnvis, with dst.Length for siz: what is stored is the longest run of whole encodings that fits,
      and the result is the length of all of them; but with room for the NUL alone it is 0. */
  method Strnvis(dst: array<Byte>, src: Bytes, f: Flags) returns (n: nat, ghost k: nat)
    requires 0 !in src
    modifies dst
    ensures k <= |src| && (dst.Length > 0 ==> var e := Encoded(src, f, k); |e| < dst.Length && dst[..|e|] == e && dst[|e|] == 0)
    ensures k < |src| ==> |Encoded(src, f, k + 1)| >= dst.Length
    ensures n == if dst.Length == 1 then 0 else |Encoded(src, f, |src|)|
    ensures n == |Encoded(src, f, |src|)| <==> dst.Length != 1 || src == []
  {
    EncodedSize(src, f, |src|);
    var end: int, d: nat, i: nat, s: nat, stop := dst.Length - 1, 0, 0, 0, false;
    while s < |src| && d < end
      invariant 0 <= s <= |src| && Stored(dst, src, f, s, d) && d <= Max(end, 0)
      invariant (i == 0 ==> s == 0 && d == 0) && (end <= 0 ==> i == 0) && !stop
      decreases |src| - s
    {
      s, d, i, stop := StoreOne(dst, src, f, s, d);
      if stop {
        break;
      }
    }
    k := s;
    assert k < |src| ==> |Encoded(src, f, k + 1)| >= dst.Length by {
      if k < |src| && !stop {
        VisSize(src[k], f, NextOf(src, k));
      }
    }
    if dst.Length > 0 {
      dst[d] := 0;
    }
    n := d;
    if d + i > end {
      n := CountOn(src, f, s, d);
    }
  }

  function Max(a: int, b: int): int {
    if a > b then a else b
  }
}
