/** src/bin/chmod/setmode.c: setmode and getmode on arrays of bit commands. */
module SetMode {
  import opened ModeBits
  import opened ModeText
  import opened ModeCompile

  /** The array holds the commands cs, and a command '\\0' that ends them. */
  ghost predicate Holds(a: array<BitCmd>, cs: seq<BitCmd>)
    reads a
  {
    |cs| < a.Length && a[..|cs|] == cs && a[|cs|].cmd == '\0' && Proper(cs)
  }

  ghost predicate Proper(cs: seq<BitCmd>) {
    forall i :: 0 <= i < |cs| ==> IsCopy(cs[i].cmd) || InGroup(cs[i])
  }

  lemma MinusBits(m: bv32, a: bv32, b: bv32, c: bv32, w: bv32)
    ensures ((m & !(a & w)) & !(b & w)) & !(c & w) == m & !((a | b | c) & w)
  {
  }

  lemma OrTwo(m: Mode, a: Mode, b: Mode, w: Mode)
    ensures Or(Or(m, And(a, w)), And(b, w)) == Or(m, And(Or(a, b), w))
  {
  }

  /** v shifted to the place of the user (6) or of the group (3). */
  function Shifted(v: Mode, n: nat): Mode {
    if n == 6 then Mode(v.b << 6) else Mode(v.b << 3)
  }

  /** The place of each flag, or nothing. */
  function Part(flag: bool, v: Mode): Mode {
    if flag then v else NONE
  }

  function Union(a: Mode, b: Mode, c: Mode): Mode {
    Mode(a.b | b.b | c.b)
  }

  lemma MinusParts(m: Mode, a: Mode, b: Mode, c: Mode, w: Mode)
    ensures Minus(Minus(Minus(m, And(a, w)), And(b, w)), And(c, w)) == Minus(m, And(Union(a, b, c), w))
  {
    MinusBits(m.b, a.b, b.b, c.b, w.b);
  }

  lemma OrParts(m: Mode, a: Mode, b: Mode, c: Mode, w: Mode)
    ensures Or(Or(Or(m, And(a, w)), And(b, w)), And(c, w)) == Or(m, And(Union(a, b, c), w))
  {
    assert Union(a, b, c) == Or(Or(a, b), c);
    hide And, Or, Union;
    OrTwo(m, a, b, w);
    OrTwo(m, Or(a, b), c, w);
  }

  lemma PlacesParts(f: Flags, v: Mode)
    ensures Places(f, v) == Union(Part(f.u, Shifted(v, 6)), Part(f.g, Shifted(v, 3)), Part(f.o, v))
  {
  }

  lemma PartSays(m: Mode, flag: bool, v: Mode, w: Mode)
    ensures Minus(m, And(Part(flag, v), w)) == if flag then Minus(m, And(v, w)) else m
    ensures Or(m, And(Part(flag, v), w)) == if flag then Or(m, And(v, w)) else m
  {
    NoneAnd(w);
    NoBits(m);
    hide And, Or, Minus;
  }

  /** The part of getmode that is common to the copy commands, when it clears. */
  method ClearPlaces(c: BitCmd, clrval: Mode, mode: Mode) returns (newmode: Mode)
    ensures newmode == Minus(mode, And(Places(c.cmd2, clrval), c.bits))
  {
    hide *;
    ghost var f, w := c.cmd2, c.bits;
    PlacesParts(f, clrval);
    MinusParts(mode, Part(f.u, Shifted(clrval, 6)), Part(f.g, Shifted(clrval, 3)), Part(f.o, clrval), w);
    newmode := mode;
    PartSays(newmode, f.u, Shifted(clrval, 6), w);
    if c.cmd2.u {
      newmode := Minus(newmode, And(Shifted(clrval, 6), c.bits));
    }
    PartSays(newmode, f.g, Shifted(clrval, 3), w);
    if c.cmd2.g {
      newmode := Minus(newmode, And(Shifted(clrval, 3), c.bits));
    }
    PartSays(newmode, f.o, clrval, w);
    if c.cmd2.o {
      newmode := Minus(newmode, And(clrval, c.bits));
    }
  }

  /** The same, when it sets. */
  method SetPlaces(c: BitCmd, value: Mode, mode: Mode) returns (newmode: Mode)
    ensures newmode == Or(mode, And(Places(c.cmd2, value), c.bits))
  {
    hide *;
    ghost var f, w := c.cmd2, c.bits;
    PlacesParts(f, value);
    OrParts(mode, Part(f.u, Shifted(value, 6)), Part(f.g, Shifted(value, 3)), Part(f.o, value), w);
    newmode := mode;
    PartSays(newmode, f.u, Shifted(value, 6), w);
    if c.cmd2.u {
      newmode := Or(newmode, And(Shifted(value, 6), c.bits));
    }
    PartSays(newmode, f.g, Shifted(value, 3), w);
    if c.cmd2.g {
      newmode := Or(newmode, And(Shifted(value, 3), c.bits));
    }
    PartSays(newmode, f.o, value, w);
    if c.cmd2.o {
      newmode := Or(newmode, And(value, c.bits));
    }
  }

  method CopyBits(c: BitCmd, mode: Mode) returns (newmode: Mode)
    ensures newmode == Copied(c, mode)
  {
    hide And, Or, Minus, Places, CopyOf;
    var value := CopyOf(c.cmd, mode);
    newmode := mode;
    if c.cmd2.clr {
      newmode := ClearPlaces(c, if c.cmd2.add then S_IRWXO else value, newmode);
    }
    if c.cmd2.add {
      newmode := SetPlaces(c, value, newmode);
    }
  }

  /** getmode */
  method GetMode(a: array<BitCmd>, omode: Mode, ghost cs: seq<BitCmd>) returns (newmode: Mode)
    requires Holds(a, cs)
    ensures newmode == Run(cs, omode, omode)
  {
    hide And, Or, Minus, MayExecute, Copied;
    newmode := omode;
    var i := 0;
    while true
      invariant 0 <= i <= |cs| && Run(cs[i..], newmode, omode) == Run(cs, omode, omode)
      decreases |cs| - i
    {
      var c := a[i];
      assert i < |cs| ==> c == cs[i] && cs[i..][1..] == cs[i + 1..];
      if c.cmd == 'u' || c.cmd == 'g' || c.cmd == 'o' {
        newmode := CopyBits(c, newmode);
      } else if c.cmd == '+' {
        newmode := Or(newmode, c.bits);
      } else if c.cmd == '-' {
        newmode := Minus(newmode, c.bits);
      } else if c.cmd == 'X' {
        if MayExecute(omode) {
          newmode := Or(newmode, c.bits);
        }
      } else {
        return;
      }
      i := i + 1;
    }
  }

  // compress_mode

  /** What is left to read from r on, and the whole of what will be written. */
  ghost predicate Reading(a: array<BitCmd>, w: nat, r: nat, cs: seq<BitCmd>, clr: Mode, add: Mode, x: Mode)
    reads a
  {
    && w <= r <= |cs| < a.Length && a[r..|cs|] == cs[r..] && a[|cs|].cmd == '\0'
    && Proper(cs) && a[..w] + Squeezed(cs[r..], clr, add, x) == Squeezed(cs, NONE, NONE, NONE)
    && |Flush(clr, add, x)| <= r - w
  }

  lemma FlushSize(clr: Mode, add: Mode, x: Mode, b: Mode)
    ensures |Flush(Or(clr, b), Minus(add, b), Minus(x, b))| <= |Flush(clr, add, x)| + 1
    ensures |Flush(Minus(clr, b), Or(add, b), Minus(x, b))| <= |Flush(clr, add, x)| + 1
    ensures |Flush(clr, add, Or(x, Minus(b, add)))| <= |Flush(clr, add, x)| + 1
    ensures |Flush(NONE, NONE, NONE)| == 0
  {
    NoBits(b);
    hide Or, Minus;
  }

  lemma SqueezedNext(cs: seq<BitCmd>, r: nat, clr: Mode, add: Mode, x: Mode)
    requires r < |cs|
    ensures cs[r..][0] == cs[r] && cs[r..][1..] == cs[r + 1..]
    ensures cs[r].cmd == '-' ==> Squeezed(cs[r..], clr, add, x) == Squeezed(cs[r + 1..], Or(clr, cs[r].bits), Minus(add, cs[r].bits), Minus(x, cs[r].bits))
    ensures cs[r].cmd == '+' ==> Squeezed(cs[r..], clr, add, x) == Squeezed(cs[r + 1..], Minus(clr, cs[r].bits), Or(add, cs[r].bits), Minus(x, cs[r].bits))
    ensures cs[r].cmd == 'X' ==> Squeezed(cs[r..], clr, add, x) == Squeezed(cs[r + 1..], clr, add, Or(x, Minus(cs[r].bits, add)))
    ensures !InGroup(cs[r]) ==> Squeezed(cs[r..], clr, add, x) == Flush(clr, add, x) + Squeezed(cs[r..], NONE, NONE, NONE)
    ensures !InGroup(cs[r]) ==> Squeezed(cs[r..], NONE, NONE, NONE) == [cs[r]] + Squeezed(cs[r + 1..], NONE, NONE, NONE)
  {
    hide Or, Minus, Maybe;
    assert cs[r..][1..] == cs[r + 1..];
    assert Flush(NONE, NONE, NONE) == [] by {
      FlushSize(NONE, NONE, NONE, NONE);
    }
    Prepend(Flush(clr, add, x), cs[r], Squeezed(cs[r + 1..], NONE, NONE, NONE));
  }

  lemma Prepend(s: seq<BitCmd>, c: BitCmd, t: seq<BitCmd>)
    ensures s + [c] + t == s + ([c] + t)
  {
  }

  lemma {:induction false} SqueezedProper(cs: seq<BitCmd>, clr: Mode, add: Mode, x: Mode)
    requires Proper(cs)
    ensures Proper(Squeezed(cs, clr, add, x))
    decreases cs
  {
    hide Or, Minus, Maybe;
    assert Proper(Flush(clr, add, x)) by {
      FlushProper(clr, add, x);
    }
    if cs != [] {
      var b := cs[0].bits;
      SqueezedProper(cs[1..], Or(clr, b), Minus(add, b), Minus(x, b));
      SqueezedProper(cs[1..], Minus(clr, b), Or(add, b), Minus(x, b));
      SqueezedProper(cs[1..], clr, add, Or(x, Minus(b, add)));
      SqueezedProper(cs[1..], NONE, NONE, NONE);
    }
  }

  lemma FlushProper(clr: Mode, add: Mode, x: Mode)
    ensures Proper(Flush(clr, add, x))
  {
  }

  /** A copy command moves down to where the next command is written. */
  method MoveDown(a: array<BitCmd>, w: nat, r: nat, ghost cs: seq<BitCmd>)
    requires Reading(a, w, r, cs, NONE, NONE, NONE) && r < |cs| && !InGroup(cs[r])
    modifies a
    ensures Reading(a, w + 1, r + 1, cs, NONE, NONE, NONE)
  {
    SqueezedNext(cs, r, NONE, NONE, NONE);
    FlushSize(NONE, NONE, NONE, NONE);
    hide Squeezed, Flush, Proper;
    assert a[r] == a[r..|cs|][0] == cs[r];
    ghost var rest := a[r + 1..|cs|];
    assert rest == a[r..|cs|][1..] == cs[r + 1..];
    ghost var front := a[..w];
    a[w] := a[r];
    assert a[..w + 1] == front + [cs[r]];
    assert a[r + 1..|cs|] == rest;
    Regather(front, [cs[r]], Squeezed(cs[r + 1..], NONE, NONE, NONE));
  }

  lemma Regather(s: seq<BitCmd>, t: seq<BitCmd>, u: seq<BitCmd>)
    ensures s + (t + u) == s + t + u
  {
  }

  /** The same for the command that ends the list. */
  method MoveEnd(a: array<BitCmd>, w: nat, r: nat, ghost cs: seq<BitCmd>)
    requires Reading(a, w, r, cs, NONE, NONE, NONE) && r == |cs|
    modifies a
    ensures Holds(a, Squeezed(cs, NONE, NONE, NONE))
  {
    SqueezedProper(cs, NONE, NONE, NONE);
    FlushSize(NONE, NONE, NONE, NONE);
    assert cs[|cs|..] == [] && Squeezed([], NONE, NONE, NONE) == [];
    hide Squeezed, Flush, Proper;
    ghost var front := a[..w];
    assert front + [] == front;
    a[w] := a[r];
    assert a[..w] == front;
  }

  lemma ReadingSays(a: array<BitCmd>, w: nat, r: nat, cs: seq<BitCmd>, clr: Mode, add: Mode, x: Mode)
    requires Reading(a, w, r, cs, clr, add, x)
    ensures w <= r <= |cs| < a.Length && (r < |cs| ==> a[r] == cs[r] && (IsCopy(cs[r].cmd) || InGroup(cs[r])))
    ensures r == |cs| ==> a[r].cmd == '\0'
  {
    assert r < |cs| ==> a[r] == a[r..|cs|][0] == cs[r];
  }

  /** The first loop: copy commands, and the command that ends the list, are copied down. */
  method CopyDown(a: array<BitCmd>, w0: nat, r0: nat, ghost cs: seq<BitCmd>) returns (w: nat, r: nat, done: bool)
    requires Reading(a, w0, r0, cs, NONE, NONE, NONE)
    modifies a
    ensures done ==> Holds(a, Squeezed(cs, NONE, NONE, NONE))
    ensures !done ==> Reading(a, w, r, cs, NONE, NONE, NONE) && r0 <= r < |cs| && InGroup(cs[r])
  {
    hide Reading, Holds;
    w, r := w0, r0;
    ReadingSays(a, w, r, cs, NONE, NONE, NONE);
    while a[r].cmd != '+' && a[r].cmd != '-' && a[r].cmd != 'X'
      invariant Reading(a, w, r, cs, NONE, NONE, NONE) && r0 <= r <= |cs| < a.Length
      decreases |cs| - r
    {
      ReadingSays(a, w, r, cs, NONE, NONE, NONE);
      if a[r].cmd == '\0' {
        MoveEnd(a, w, r, cs);
        return w, r, true;
      }
      MoveDown(a, w, r, cs);
      w, r := w + 1, r + 1;
    }
    ReadingSays(a, w, r, cs, NONE, NONE, NONE);
    done := false;
  }

  /** The second loop: a run of '-', '+' and 'X' is taken together. */
  method TakeRun(a: array<BitCmd>, w: nat, r0: nat, ghost cs: seq<BitCmd>) returns (r: nat, clrbits: Mode, setbits: Mode, xbits: Mode)
    requires Reading(a, w, r0, cs, NONE, NONE, NONE) && r0 < |cs| && InGroup(cs[r0])
    ensures Reading(a, w, r, cs, clrbits, setbits, xbits) && r0 < r && (r < |cs| ==> !InGroup(cs[r]))
  {
    hide Reading, Or, Minus;
    r, clrbits, setbits, xbits := r0, NONE, NONE, NONE;
    while true
      invariant Reading(a, w, r, cs, clrbits, setbits, xbits) && r0 <= r <= |cs| && (r == r0 ==> r < |cs| && InGroup(cs[r]))
      decreases |cs| - r
    {
      ReadingSays(a, w, r, cs, clrbits, setbits, xbits);
      var c := a[r];
      if InGroup(c) {
        TakeOne(a, w, r, cs, clrbits, setbits, xbits);
      }
      if c.cmd == '-' {
        clrbits := Or(clrbits, c.bits);
        setbits := Minus(setbits, c.bits);
        xbits := Minus(xbits, c.bits);
      } else if c.cmd == '+' {
        setbits := Or(setbits, c.bits);
        clrbits := Minus(clrbits, c.bits);
        xbits := Minus(xbits, c.bits);
      } else if c.cmd == 'X' {
        xbits := Or(xbits, Minus(c.bits, setbits));
      } else {
        break;
      }
      r := r + 1;
    }
  }

  lemma TakeOne(a: array<BitCmd>, w: nat, r: nat, cs: seq<BitCmd>, clr: Mode, add: Mode, x: Mode)
    requires Reading(a, w, r, cs, clr, add, x) && r < |cs|
    ensures var b := cs[r].bits;
      && (cs[r].cmd == '-' ==> Reading(a, w, r + 1, cs, Or(clr, b), Minus(add, b), Minus(x, b)))
      && (cs[r].cmd == '+' ==> Reading(a, w, r + 1, cs, Minus(clr, b), Or(add, b), Minus(x, b)))
      && (cs[r].cmd == 'X' ==> Reading(a, w, r + 1, cs, clr, add, Or(x, Minus(b, add))))
  {
    hide Or, Minus, Squeezed, Flush, Proper;
    SqueezedNext(cs, r, clr, add, x);
    FlushSize(clr, add, x, cs[r].bits);
    assert a[r + 1..|cs|] == a[r..|cs|][1..] == cs[r + 1..];
  }

  method PutMaybe(a: array<BitCmd>, w0: nat, cmd: char, bits: Mode) returns (w: nat)
    requires w0 + |Maybe(cmd, bits)| <= a.Length
    modifies a
    ensures w == w0 + |Maybe(cmd, bits)| && a[..w] == old(a[..w0]) + Maybe(cmd, bits)
    ensures forall k :: w <= k < a.Length ==> a[k] == old(a[k])
  {
    w := w0;
    if bits != NONE {
      a[w] := BitCmd(cmd, NO_FLAGS, bits);
      w := w + 1;
    }
  }

  lemma FlushParts(clr: Mode, add: Mode, x: Mode, s: seq<BitCmd>)
    ensures s + Maybe('-', clr) + Maybe('+', add) + Maybe('X', x) == s + Flush(clr, add, x)
    ensures |Flush(clr, add, x)| == |Maybe('-', clr)| + |Maybe('+', add)| + |Maybe('X', x)|
  {
    hide Maybe;
    Regather(s, Maybe('-', clr) + Maybe('+', add), Maybe('X', x));
    Regather(s, Maybe('-', clr), Maybe('+', add));
  }

  /** The end of a run: its commands come first. */
  lemma RunEnds(cs: seq<BitCmd>, r: nat, clr: Mode, add: Mode, x: Mode)
    requires r <= |cs| && (r < |cs| ==> !InGroup(cs[r]))
    ensures Squeezed(cs[r..], clr, add, x) == Flush(clr, add, x) + Squeezed(cs[r..], NONE, NONE, NONE)
  {
    if r < |cs| {
      SqueezedNext(cs, r, clr, add, x);
    } else {
      FlushSize(NONE, NONE, NONE, NONE);
      assert Squeezed([], NONE, NONE, NONE) == Flush(NONE, NONE, NONE) == [];
      assert Squeezed([], clr, add, x) == Flush(clr, add, x);
    }
  }

  /** Up to three commands, which do not reach r. */
  method PutFlush(a: array<BitCmd>, w0: nat, ghost r: nat, ghost e: nat, clrbits: Mode, setbits: Mode, xbits: Mode) returns (w: nat)
    requires w0 + |Flush(clrbits, setbits, xbits)| <= r <= e < a.Length
    modifies a
    ensures w == w0 + |Flush(clrbits, setbits, xbits)| && a[..w] == old(a[..w0]) + Flush(clrbits, setbits, xbits)
    ensures a[r..e] == old(a[r..e]) && a[e] == old(a[e])
  {
    FlushParts(clrbits, setbits, xbits, a[..w0]);
    hide Maybe, Flush;
    w := PutMaybe(a, w0, '-', clrbits);
    w := PutMaybe(a, w, '+', setbits);
    w := PutMaybe(a, w, 'X', xbits);
  }

  /** What is written for a run never reaches what is still to be read. */
  method PutRun(a: array<BitCmd>, w0: nat, r: nat, ghost cs: seq<BitCmd>, clrbits: Mode, setbits: Mode, xbits: Mode) returns (w: nat)
    requires Reading(a, w0, r, cs, clrbits, setbits, xbits) && (r < |cs| ==> !InGroup(cs[r]))
    modifies a
    ensures Reading(a, w, r, cs, NONE, NONE, NONE)
  {
    hide Maybe, Flush, Squeezed, Proper;
    ghost var front := a[..w0];
    FlushParts(clrbits, setbits, xbits, front);
    RunEnds(cs, r, clrbits, setbits, xbits);
    FlushSize(NONE, NONE, NONE, NONE);
    w := PutFlush(a, w0, r, |cs|, clrbits, setbits, xbits);
    Regather(front, Flush(clrbits, setbits, xbits), Squeezed(cs[r..], NONE, NONE, NONE));
  }

  /** compress_mode: the array is squeezed in place. What it holds then means the same for every mode,
      and has at most one '-', one '+' and one 'X' between copy commands. */
  method CompressMode(a: array<BitCmd>, ghost cs: seq<BitCmd>)
    requires Holds(a, cs)
    modifies a
    ensures Holds(a, Squeezed(cs, NONE, NONE, NONE)) && Tidy(Squeezed(cs, NONE, NONE, NONE))
    ensures forall mode, omode :: Run(Squeezed(cs, NONE, NONE, NONE), mode, omode) == Run(cs, mode, omode)
  {
    hide Tidy, Run, Squeezed;
    SqueezedRight(cs);
    StartReading(a, cs);
    hide Reading, Holds;
    var w, r := 0, 0;
    while true
      invariant Reading(a, w, r, cs, NONE, NONE, NONE) && r <= |cs|
      decreases |cs| - r
    {
      var done;
      w, r, done := CopyDown(a, w, r, cs);
      if done {
        return;
      }
      ghost var r0 := r;
      var clrbits, setbits, xbits;
      r, clrbits, setbits, xbits := TakeRun(a, w, r, cs);
      w := PutRun(a, w, r, cs, clrbits, setbits, xbits);
      ReadingSays(a, w, r, cs, NONE, NONE, NONE);
    }
  }

  lemma StartReading(a: array<BitCmd>, cs: seq<BitCmd>)
    requires Holds(a, cs)
    ensures Reading(a, 0, 0, cs, NONE, NONE, NONE)
  {
    FlushSize(NONE, NONE, NONE, NONE);
    assert cs[0..] == cs && a[..0] == [] && a[0..|cs|] == a[..|cs|];
  }

  // setmode

  /** addcmd: one or two commands are stored from n on. */
  method StoreCmds(buf: array<BitCmd>, n: nat, cs: seq<BitCmd>)
    requires n + |cs| <= buf.Length
    modifies buf
    ensures buf[..n + |cs|] == old(buf[..n]) + cs
  {
    forall k | 0 <= k < |cs| {
      buf[n + k] := cs[k];
    }
  }

  /** The room that ADDCMD keeps: two more commands, or one and the end of the list. */
  ghost predicate Room(buf: array<BitCmd>, n: nat) {
    n < buf.Length && buf.Length >= 8
  }

  /** ADDCMD: the array grows by four when fewer than three places are left. */
  method AddCmd(buf0: array<BitCmd>, n0: nat, cs: seq<BitCmd>) returns (buf: array<BitCmd>, n: nat)
    requires Room(buf0, n0) && |cs| <= 2
    modifies buf0
    ensures Room(buf, n) && n == n0 + |cs| && buf[..n] == old(buf0[..n0]) + cs
    ensures buf == buf0 || fresh(buf)
  {
    buf, n := buf0, n0;
    if n >= buf.Length - 2 {
      var b := new BitCmd[buf.Length + 4](i => BitCmd('\0', NO_FLAGS, NONE));
      forall k | 0 <= k < n {
        b[k] := buf[k];
      }
      buf := b;
    }
    StoreCmds(buf, n, cs);
    n := n + |cs|;
  }

  function CharAt(p: string, i: nat): char {
    if i < |p| then p[i] else '\0'
  }

  /** The loop over the users of a clause. */
  method ScanWho(p: string, i0: nat) returns (i: nat, who: Mode)
    requires i0 <= |p|
    ensures i == i0 + WhoLen(p[i0..]) && i <= |p| && who == WhoBits(p[i0..i])
  {
    hide Or;
    i, who := i0, NONE;
    assert p[i0..i0] == "";
    while IsWho(CharAt(p, i))
      invariant i0 <= i <= |p| && who == WhoBits(p[i0..i]) && WhoLen(p[i0..]) == i - i0 + WhoLen(p[i..])
      decreases |p| - i
    {
      assert p[i0..i + 1][..i - i0] == p[i0..i];
      assert p[i..][1..] == p[i + 1..];
      who := Or(who, WhoBit(p[i]));
      i := i + 1;
    }
    assert i < |p| ==> p[i..][0] == p[i];
  }

  /** What a copy letter makes setmode store. */
  method PutCopy(buf0: array<BitCmd>, n0: nat, c: char, op: char, who: Mode, perm: Mode, permX: Mode, mask: Mode) returns (buf: array<BitCmd>, n: nat)
    requires Room(buf0, n0) && IsOp(op)
    modifies buf0
    ensures Room(buf, n) && buf[..n] == old(buf0[..n0]) + FlushCmds(c, op, who, perm, permX, mask)
    ensures buf == buf0 || fresh(buf)
  {
    hide And;
    ghost var front := buf0[..n0];
    buf, n := buf0, n0;
    if perm != NONE {
      buf, n := AddCmd(buf, n, AddCmds(op, who, perm, mask));
    }
    ghost var cs := if perm != NONE then AddCmds(op, who, perm, mask) else [];
    assert buf[..n] == front + cs;
    if op == '+' && permX != NONE {
      buf, n := AddCmd(buf, n, AddCmds('X', who, permX, mask));
    }
    ghost var ds := if op == '+' && permX != NONE then AddCmds('X', who, permX, mask) else [];
    assert buf[..n] == front + cs + ds;
    buf, n := AddCmd(buf, n, [CopyCmd(c, who, op, mask)]);
    Regather(front, cs, ds);
    Regather(front, cs + ds, [CopyCmd(c, who, op, mask)]);
  }

  /** What the end of an action makes setmode store. */
  method PutEnd(buf0: array<BitCmd>, n0: nat, op: char, who: Mode, perm: Mode, permX: Mode, done: bool, mask: Mode) returns (buf: array<BitCmd>, n: nat)
    requires Room(buf0, n0) && IsOp(op)
    modifies buf0
    ensures Room(buf, n) && buf[..n] == old(buf0[..n0]) + EndCmds(op, who, perm, permX, done, mask)
    ensures buf == buf0 || fresh(buf)
  {
    hide And;
    ghost var front := buf0[..n0];
    buf, n := buf0, n0;
    if perm != NONE || (op == '=' && !done) {
      buf, n := AddCmd(buf, n, AddCmds(op, who, perm, mask));
    }
    ghost var cs := if perm != NONE || (op == '=' && !done) then AddCmds(op, who, perm, mask) else [];
    assert buf[..n] == front + cs;
    if permX != NONE {
      buf, n := AddCmd(buf, n, AddCmds('X', who, permX, mask));
    }
    Regather(front, cs, if permX != NONE then AddCmds('X', who, permX, mask) else []);
  }

  /** What has been stored, and what the permissions from i to e will add. */
  ghost predicate Storing(buf: array<BitCmd>, n: nat, total: seq<BitCmd>, op: char, who: Mode, perms: string, perm: Mode, permX: Mode, done: bool, mask: Mode)
    reads buf
  {
    Room(buf, n) && buf[..n] + PermCmds(op, who, perms, perm, permX, done, mask) == total
  }

  lemma Spelled(p: string, i0: nat, i: nat)
    requires i0 <= i < |p| && PermLen(p[i0..]) == i - i0 + PermLen(p[i..])
    ensures IsPerm(p[i]) <==> i < i0 + PermLen(p[i0..])
    ensures IsPerm(p[i]) ==> PermLen(p[i..]) == 1 + PermLen(p[i + 1..])
  {
    assert p[i..][0] == p[i] && p[i..][1..] == p[i + 1..];
  }

  /** The loop over the permissions of one action. */
  method ScanPerms(p: string, i0: nat, op: char, who: Mode, mask: Mode, buf0: array<BitCmd>, n0: nat) returns (i: nat, buf: array<BitCmd>, n: nat)
    requires i0 <= |p| && Room(buf0, n0) && IsOp(op)
    modifies buf0
    ensures i == i0 + PermLen(p[i0..]) && i <= |p| && Room(buf, n) && (buf == buf0 || fresh(buf))
    ensures buf[..n] == old(buf0[..n0]) + ActionCmds(who, Action(op, p[i0..i]), mask)
  {
    hide Or, PermLen, FlushCmds, EndCmds;
    buf, n := buf0, n0;
    var perm, permX, done := NONE, NONE, false;
    i := i0;
    ghost var e := i0 + PermLen(p[i0..]);
    ghost var total := buf0[..n0] + ActionCmds(who, Action(op, p[i0..e]), mask);
    while i < |p| && IsPerm(p[i])
      invariant i0 <= i <= e <= |p| && PermLen(p[i0..]) == i - i0 + PermLen(p[i..]) && (buf == buf0 || fresh(buf))
      invariant Storing(buf, n, total, op, who, p[i..e], perm, permX, done, mask)
      decreases |p| - i
    {
      Spelled(p, i0, i);
      assert p[i..e][0] == p[i] && p[i..e][1..] == p[i + 1..e];
      var c := p[i];
      if IsCopy(c) {
        ghost var front := buf[..n];
        buf, n := PutCopy(buf, n, c, op, who, perm, permX, mask);
        Regather(front, FlushCmds(c, op, who, perm, permX, mask), PermCmds(op, who, p[i + 1..e], NONE, if op == '+' then NONE else permX, done || op == '=', mask));
        perm := NONE;
        if op == '=' {
          done := true;
        }
        if op == '+' {
          permX := NONE;
        }
      } else if c == 'X' {
        OrLaws(perm, NONE, NONE);
        permX := EXEC;
      } else {
        perm := Or(perm, PermBit(c, who));
      }
      i := i + 1;
    }
    if i < |p| {
      Spelled(p, i0, i);
    }
    assert p[i..e] == "";
    buf, n := PutEnd(buf, n, op, who, perm, permX, done, mask);
  }

  // Numeric modes.

  predicate IsDigit(c: char) {
    '0' <= c <= '9'
  }

  /** What strtoul makes of octal digits, without the limit that the next test would catch. */
  function Octal(p: string): nat {
    if p == "" then 0 else 8 * Octal(p[..|p| - 1]) + if '0' <= p[|p| - 1] <= '7' then p[|p| - 1] as nat - '0' as nat else 0
  }

  function Eights(n: nat): nat {
    if n == 0 then 1 else 8 * Eights(n - 1)
  }

  /** Read from the front: a digit counts as many times as there are numbers of the digits behind it. */
  lemma {:induction false} OctalFront(c: char, q: string)
    requires '0' <= c <= '7'
    ensures Octal([c] + q) == (c as nat - '0' as nat) * Eights(|q|) + Octal(q)
  {
    var p := [c] + q;
    if q == "" {
      assert p[..|p| - 1] == "";
    } else {
      var init := q[..|q| - 1];
      assert p[..|p| - 1] == [c] + init;
      OctalFront(c, init);
      OctalLast([c] + init, q[|q| - 1]);
      OctalLast(init, q[|q| - 1]);
      assert q == init + [q[|q| - 1]] && p == ([c] + init) + [q[|q| - 1]];
      assert Eights(|q|) == 8 * Eights(|init|);
      EightTimes(c as nat - '0' as nat, Eights(|init|));
      hide *;
    }
  }

  lemma EightTimes(d: nat, e: nat)
    ensures d * (8 * e) == 8 * (d * e)
  {
  }

  lemma OctalLast(q: string, c: char)
    ensures Octal(q + [c]) == 8 * Octal(q) + if '0' <= c <= '7' then c as nat - '0' as nat else 0
  {
    assert (q + [c])[..|q|] == q;
  }

  predicate OctalDigits(p: string) {
    forall i :: 0 <= i < |p| ==> '0' <= p[i] <= '7'
  }

  /** A number that has no other bits than the standard ones. */
  predicate Numeric(p: string) {
    OctalDigits(p) && Octal(p) < 0x1_0000_0000 && Minus(Mode(Octal(p) as bv32), STANDARD_BITS) == NONE
  }

  /** strtoul(p, &ep, 8): the value of the digits, and where they end. */
  method Strtoul(p: string) returns (v: nat, ep: nat)
    ensures ep <= |p| && OctalDigits(p[..ep]) && v == Octal(p[..ep])
    ensures ep < |p| ==> !('0' <= p[ep] <= '7')
  {
    v, ep := 0, 0;
    while ep < |p| && '0' <= p[ep] <= '7'
      invariant ep <= |p| && OctalDigits(p[..ep]) && v == Octal(p[..ep])
    {
      assert p[..ep + 1][..ep] == p[..ep];
      v := 8 * v + (p[ep] as nat - '0' as nat);
      ep := ep + 1;
    }
  }

  /** What setmode accepts. */
  ghost predicate Accepted(p: string) {
    p != "" && if IsDigit(p[0]) then Numeric(p) else ParseClauses(p).Some?
  }

  /** The commands that setmode leaves. */
  ghost function Compiled(p: string, mask: Mode): seq<BitCmd>
    requires Accepted(p)
  {
    if IsDigit(p[0]) then AddCmds('=', STANDARD_BITS, Mode(Octal(p) as bv32), mask)
    else Squeezed(ClausesCmds(ParseClauses(p).value, mask), NONE, NONE, NONE)
  }

  /** setmode for a number. */
  method SetNumber(p: string, mask: Mode, buf0: array<BitCmd>) returns (buf: array?<BitCmd>, ghost cs: seq<BitCmd>)
    requires p != "" && IsDigit(p[0]) && Room(buf0, 0)
    modifies buf0
    ensures (buf != null <==> Accepted(p)) && (buf != null ==> cs == Compiled(p, mask) && Holds(buf, cs))
  {
    hide And, Minus;
    var perml, ep := Strtoul(p);
    assert ep == |p| ==> p[..ep] == p;
    cs := [];
    if ep < |p| || perml >= 0x1_0000_0000 || Minus(Mode(perml as bv32), STANDARD_BITS) != NONE {
      return null, cs;
    }
    var perm := Mode(perml as bv32);
    var b, n := AddCmd(buf0, 0, AddCmds('=', STANDARD_BITS, perm, mask));
    cs := AddCmds('=', STANDARD_BITS, perm, mask);
    assert b[..n] == cs;
    b[n] := BitCmd('\0', b[n].cmd2, b[n].bits);
    assert b[..n] == cs;
    buf := b;
  }

  // Symbolic modes.

  /** What has been stored, and what the rest of the mode from the operator at i on will add. None
      if the mode is in error. */
  ghost function Total(p: string, i: nat, who: Mode, stored: seq<BitCmd>, mask: Mode): Option<seq<BitCmd>>
    requires i <= |p|
  {
    match ParseActions(p[i..])
    case None => Option.None
    case Some(rest) => Some(stored + (ActionsCmds(who, rest.0, mask) + ClausesCmds(rest.1, mask)))
  }

  /** The same, from the start of a clause. */
  ghost function TotalClauses(p: string, i: nat, stored: seq<BitCmd>, mask: Mode): Option<seq<BitCmd>>
    requires i <= |p|
  {
    match ParseClauses(p[i..])
    case None => Option.None
    case Some(cs) => Some(stored + ClausesCmds(cs, mask))
  }

  /** A clause starts with its users. */
  lemma StartClause(p: string, i: nat, j: nat, stored: seq<BitCmd>, mask: Mode)
    requires i <= |p| && j == i + WhoLen(p[i..]) && j <= |p|
    ensures TotalClauses(p, i, stored, mask) == Total(p, j, WhoBits(p[i..j]), stored, mask)
  {
    hide WhoLen, WhoBits, ActionsCmds, ParseActions;
    assert p[i..][j - i..] == p[j..] && p[i..][..j - i] == p[i..j];
    if ParseActions(p[j..]).Some? {
      var rest := ParseActions(p[j..]).value;
      var cs := [Clause(p[i..j], rest.0)] + rest.1;
      assert cs[1..] == rest.1;
    }
  }

  /** The action at i, and what comes after it at j. */
  lemma NextAction(p: string, i: nat, j: nat, who: Mode, stored: seq<BitCmd>, mask: Mode)
    requires i < |p| && IsOp(p[i]) && j == i + 1 + PermLen(p[i + 1..]) && j <= |p|
    ensures var stored' := stored + ActionCmds(who, Action(p[i], p[i + 1..j]), mask);
      Total(p, i, who, stored, mask) ==
        if j == |p| then Some(stored')
        else if p[j] == ',' then TotalClauses(p, j + 1, stored', mask)
        else Total(p, j, who, stored', mask)
  {
    hide PermLen, ActionCmds;
    var a := Action(p[i], p[i + 1..j]);
    var k := PermLen(p[i + 1..]);
    var q := p[i..];
    assert q[0] == p[i] && q[1..] == p[i + 1..];
    assert p[i + 1..][..k] == p[i + 1..j] && p[i + 1..][k..] == p[j..];
    OneAction(who, a, [], mask);
    if j < |p| {
      assert p[j..][0] == p[j] && p[j..][1..] == p[j + 1..];
      if p[j] == ',' {
        hide ParseClauses;
        if ParseClauses(p[j + 1..]).Some? {
          var cs := ParseClauses(p[j + 1..]).value;
          Regather(stored, ActionCmds(who, a, mask), ClausesCmds(cs, mask));
        }
      } else if ParseActions(p[j..]).Some? {
        var rest := ParseActions(p[j..]).value;
        OneAction(who, a, rest.0, mask);
        Regather4(stored, ActionCmds(who, a, mask), ActionsCmds(who, rest.0, mask), ClausesCmds(rest.1, mask));
      }
    }
  }

  lemma OneAction(who: Mode, a: Action, as': seq<Action>, mask: Mode)
    ensures ActionsCmds(who, [a] + as', mask) == ActionCmds(who, a, mask) + ActionsCmds(who, as', mask)
    ensures ActionsCmds(who, [a], mask) == ActionCmds(who, a, mask) && ClausesCmds([], mask) == []
  {
    assert ([a] + as')[1..] == as' && [a][1..] == [];
  }

  lemma Regather4(s: seq<BitCmd>, t: seq<BitCmd>, u: seq<BitCmd>, v: seq<BitCmd>)
    ensures s + ((t + u) + v) == (s + t) + (u + v)
  {
  }

  lemma {:induction false} PermCmdsProper(op: char, who: Mode, perms: string, perm: Mode, permX: Mode, done: bool, mask: Mode)
    requires IsOp(op)
    ensures Proper(PermCmds(op, who, perms, perm, permX, done, mask))
    decreases perms
  {
    hide Or, And, PermBit;
    if perms == "" {
      EndProper(op, who, perm, permX, done, mask);
    } else if IsCopy(perms[0]) {
      FlushCmdsProper(perms[0], op, who, perm, permX, mask);
      var more := PermCmds(op, who, perms[1..], NONE, if op == '+' then NONE else permX, done || op == '=', mask);
      PermCmdsProper(op, who, perms[1..], NONE, if op == '+' then NONE else permX, done || op == '=', mask);
      ProperJoin(FlushCmds(perms[0], op, who, perm, permX, mask), more);
    } else {
      PermCmdsProper(op, who, perms[1..], Or(perm, PermBit(perms[0], who)), if perms[0] == 'X' then EXEC else permX, done, mask);
    }
  }

  lemma ProperJoin(s: seq<BitCmd>, t: seq<BitCmd>)
    requires Proper(s) && Proper(t)
    ensures Proper(s + t)
  {
  }

  lemma EndProper(op: char, who: Mode, perm: Mode, permX: Mode, done: bool, mask: Mode)
    requires IsOp(op)
    ensures Proper(EndCmds(op, who, perm, permX, done, mask))
  {
    AddProper(op, who, perm, mask);
    AddProper('X', who, permX, mask);
    hide And, AddCmds, Proper;
    var s := if perm != NONE || (op == '=' && !done) then AddCmds(op, who, perm, mask) else [];
    var t := if permX != NONE then AddCmds('X', who, permX, mask) else [];
    NothingProper();
    ProperJoin(s, t);
  }

  lemma NothingProper()
    ensures Proper([])
  {
  }

  lemma AddProper(op: char, who: Mode, bits: Mode, mask: Mode)
    requires IsOp(op) || op == 'X'
    ensures Proper(AddCmds(op, who, bits, mask))
  {
    hide And;
  }

  lemma FlushCmdsProper(c: char, op: char, who: Mode, perm: Mode, permX: Mode, mask: Mode)
    requires IsOp(op) && IsCopy(c)
    ensures Proper(FlushCmds(c, op, who, perm, permX, mask))
  {
    var cmd := CopyCmd(c, who, op, mask);
    assert Proper([cmd]);
    AddProper(op, who, perm, mask);
    AddProper('X', who, permX, mask);
    hide And, AddCmds, Proper, CopyCmd;
    var s := if perm != NONE then AddCmds(op, who, perm, mask) else [];
    var t := if op == '+' && permX != NONE then AddCmds('X', who, permX, mask) else [];
    NothingProper();
    ProperJoin(s, t);
    ProperJoin(s + t, [cmd]);
  }

  /** One turn of the outer loop: an operator and its permissions. */
  method ScanAction(p: string, i0: nat, who: Mode, mask: Mode, buf0: array<BitCmd>, n0: nat) returns (i: nat, buf: array<BitCmd>, n: nat)
    requires i0 < |p| && IsOp(p[i0]) && Room(buf0, n0) && Proper(buf0[..n0])
    modifies buf0
    ensures i0 < i <= |p| && Room(buf, n) && (buf == buf0 || fresh(buf)) && Proper(buf[..n])
    ensures Total(p, i0, who, old(buf0[..n0]), mask) ==
      if i == |p| then Some(buf[..n])
      else if p[i] == ',' then TotalClauses(p, i + 1, buf[..n], mask)
      else Total(p, i, who, buf[..n], mask)
  {
    hide Total, TotalClauses, PermCmds, PermLen;
    ghost var stored := buf0[..n0];
    i, buf, n := ScanPerms(p, i0 + 1, p[i0], who, mask, buf0, n0);
    NextAction(p, i0, i, who, stored, mask);
    PermCmdsProper(p[i0], who, p[i0 + 1..i], NONE, NONE, false, mask);
  }

  /** setmode for a symbolic mode, before it is squeezed. */
  method Clauses(p: string, mask: Mode, buf0: array<BitCmd>) returns (ok: bool, buf: array<BitCmd>, n: nat)
    requires Room(buf0, 0)
    modifies buf0
    ensures ok == ParseClauses(p).Some?
    ensures ok ==> Room(buf, n) && (buf == buf0 || fresh(buf)) && Proper(buf[..n]) && buf[..n] == ClausesCmds(ParseClauses(p).value, mask)
  {
    StartTotal(p, mask);
    hide Total, TotalClauses, ParseClauses, ParseActions, WhoLen, ClausesCmds;
    buf, n := buf0, 0;
    assert buf[..0] == [] && p[0..] == p;
    var i, who := ScanWho(p, 0);
    StartClause(p, 0, i, buf[..n], mask);
    while true
      invariant i <= |p| && Room(buf, n) && (buf == buf0 || fresh(buf)) && Proper(buf[..n])
      invariant Total(p, i, who, buf[..n], mask) == TotalClauses(p, 0, [], mask)
      decreases |p| - i
    {
      ghost var i0 := i;
      if !IsOp(CharAt(p, i)) {
        NoOp(p, i, who, buf[..n], mask);
        return false, buf, n;
      }
      i, buf, n := ScanAction(p, i, who, mask, buf, n);
      if i == |p| {
        return true, buf, n;
      }
      if p[i] == ',' {
        i := i + 1;
        ghost var start := i;
        i, who := ScanWho(p, i);
        StartClause(p, start, i, buf[..n], mask);
      }
    }
  }

  lemma StartTotal(p: string, mask: Mode)
    ensures TotalClauses(p, 0, [], mask) == if ParseClauses(p).Some? then Some(ClausesCmds(ParseClauses(p).value, mask)) else Option.None
  {
    hide ParseClauses, ClausesCmds;
    assert p[0..] == p;
    if ParseClauses(p).Some? {
      assert [] + ClausesCmds(ParseClauses(p).value, mask) == ClausesCmds(ParseClauses(p).value, mask);
    }
  }

  lemma NoOp(p: string, i: nat, who: Mode, stored: seq<BitCmd>, mask: Mode)
    requires i <= |p| && !IsOp(CharAt(p, i))
    ensures Total(p, i, who, stored, mask) == Option.None
  {
    assert i < |p| ==> p[i..][0] == p[i];
  }

  /** setmode: an error exactly when the text is not a mode, and else the squeezed commands. */
  method SetMode(p: string, mask: Mode) returns (bbox: array?<BitCmd>, ghost cs: seq<BitCmd>)
    ensures bbox != null <==> Accepted(p)
    ensures bbox != null ==> cs == Compiled(p, mask) && Holds(bbox, cs)
  {
    hide ParseClauses, ClausesCmds, Numeric, Octal, AddCmds;
    cs := [];
    if p == "" {
      return null, cs;
    }
    var buf := new BitCmd[8](i => BitCmd('\0', NO_FLAGS, NONE));
    if IsDigit(p[0]) {
      bbox, cs := SetNumber(p, mask, buf);
      return;
    }
    var ok, b, n := Clauses(p, mask, buf);
    if !ok {
      return null, cs;
    }
    cs := b[..n];
    b[n] := BitCmd('\0', b[n].cmd2, b[n].bits);
    assert b[..n] == cs;
    CompressMode(b, cs);
    cs := Squeezed(cs, NONE, NONE, NONE);
    bbox := b;
  }

  /** chmod with a mode and an umask: mask is the complement of the umask. */
  method Chmod(p: string, mask: Mode, omode: Mode) returns (ok: bool, newmode: Mode)
    ensures ok == Accepted(p)
    ensures ok && IsDigit(p[0]) ==> newmode == Or(Minus(omode, STANDARD_BITS), And(STANDARD_BITS, Mode(Octal(p) as bv32)))
    ensures ok && !IsDigit(p[0]) ==> newmode == Run(ClausesCmds(ParseClauses(p).value, mask), omode, omode)
    ensures ok && !IsDigit(p[0]) && PlainClauses(ParseClauses(p).value, mask) ==>
      newmode == AskedClauses(ParseClauses(p).value, omode, omode, mask)
  {
    assert Accepted(p) && IsDigit(p[0]) ==> Octal(p) < 0x1_0000_0000;
    hide Run, AskedClauses, ClausesCmds, ParseClauses, PlainClauses, Octal, Numeric, Squeezed, AddCmds, And, Or, Minus;
    newmode := omode;
    var bbox, cs := SetMode(p, mask);
    ok := bbox != null;
    if ok {
      newmode := GetMode(bbox, omode, cs);
      if IsDigit(p[0]) {
        StandardSome();
        AddMeans('=', STANDARD_BITS, Mode(Octal(p) as bv32), omode, omode, mask);
      } else {
        var clauses := ParseClauses(p).value;
        SqueezedMeans(ClausesCmds(clauses, mask), NONE, NONE, NONE, omode, omode);
        NoEffect(omode, omode);
        if PlainClauses(clauses, mask) {
          ClausesMean(clauses, omode, omode, mask);
        }
      }
    }
  }

  lemma StandardSome()
    ensures STANDARD_BITS != NONE
  {
  }
}
