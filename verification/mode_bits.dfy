/** src/bin/chmod/setmode.c: the bit commands that a symbolic mode is compiled to, what they mean,
    and what compress_mode makes of them. */
module ModeBits {

  /** mode_t */
  datatype Mode = Mode(b: bv32)

  function Or(m: Mode, n: Mode): Mode {
    Mode(m.b | n.b)
  }

  function And(m: Mode, n: Mode): Mode {
    Mode(m.b & n.b)
  }

  /** m & ~n */
  function Minus(m: Mode, n: Mode): Mode {
    Mode(m.b & !n.b)
  }

  const NONE := Mode(0)
  const S_ISUID := Mode(0x800)
  const S_ISGID := Mode(0x400)
  const S_IRWXU := Mode(0x1C0)
  const S_IRWXG := Mode(0x38)
  const S_IRWXO := Mode(0x7)
  const S_IFDIR := Mode(0x4000)
  const STANDARD_BITS := Mode(0xDFF)
  const READ := Mode(0x124)
  const WRITE := Mode(0x92)
  const EXEC := Mode(0x49)
  const ALL := Mode(0xFFFFFFFF)

  /** cmd2: what a copy command does, and to whom. */
  datatype Flags = Flags(clr: bool, add: bool, g: bool, o: bool, u: bool)

  const NO_FLAGS := Flags(false, false, false, false, false)

  datatype BitCmd = BitCmd(cmd: char, cmd2: Flags, bits: Mode)

  /** The X command works on directories and on files that somebody may execute already. */
  predicate MayExecute(omode: Mode) {
    And(omode, Or(S_IFDIR, EXEC)) != NONE
  }

  /** The bits that a copy command copies, in the lowest place. */
  function CopyOf(cmd: char, mode: Mode): Mode {
    if cmd == 'u' then Mode((mode.b & S_IRWXU.b) >> 6)
    else if cmd == 'g' then Mode((mode.b & S_IRWXG.b) >> 3)
    else And(mode, S_IRWXO)
  }

  /** v in all the places that the flags name. */
  function Places(f: Flags, v: Mode): Mode {
    Mode((if f.u then v.b << 6 else 0) | (if f.g then v.b << 3 else 0) | (if f.o then v.b else 0))
  }

  /** What a copy command does. */
  function Copied(c: BitCmd, mode: Mode): Mode {
    var v := CopyOf(c.cmd, mode);
    var cleared := if c.cmd2.clr then Minus(mode, And(Places(c.cmd2, if c.cmd2.add then S_IRWXO else v), c.bits)) else mode;
    if c.cmd2.add then Or(cleared, And(Places(c.cmd2, v), c.bits)) else cleared
  }

  /** What one command does to a mode; omode is the mode before the first command. */
  function Step(c: BitCmd, mode: Mode, omode: Mode): Mode {
    if c.cmd == '+' then Or(mode, c.bits)
    else if c.cmd == '-' then Minus(mode, c.bits)
    else if c.cmd == 'X' then if MayExecute(omode) then Or(mode, c.bits) else mode
    else Copied(c, mode)
  }

  /** What a list of commands does. */
  function Run(cs: seq<BitCmd>, mode: Mode, omode: Mode): Mode {
    if cs == [] then mode else Run(cs[1..], Step(cs[0], mode, omode), omode)
  }

  lemma {:induction false} RunOn(cs: seq<BitCmd>, ds: seq<BitCmd>, mode: Mode, omode: Mode)
    ensures Run(cs + ds, mode, omode) == Run(ds, Run(cs, mode, omode), omode)
  {
    hide Step;
    if cs == [] {
      assert cs + ds == ds;
    } else {
      assert (cs + ds)[1..] == cs[1..] + ds;
      RunOn(cs[1..], ds, Step(cs[0], mode, omode), omode);
    }
  }

  lemma RunOne(c: BitCmd, mode: Mode, omode: Mode)
    ensures Run([c], mode, omode) == Step(c, mode, omode)
  {
    hide Step;
    assert [c][1..] == [];
  }

  // compress_mode

  predicate InGroup(c: BitCmd) {
    c.cmd == '+' || c.cmd == '-' || c.cmd == 'X'
  }

  /** A command without bits is left out. */
  function Maybe(cmd: char, bits: Mode): seq<BitCmd> {
    if bits != NONE then [BitCmd(cmd, NO_FLAGS, bits)] else []
  }

  function Flush(clr: Mode, add: Mode, x: Mode): seq<BitCmd> {
    Maybe('-', clr) + Maybe('+', add) + Maybe('X', x)
  }

  /** Every run of '-', '+' and 'X' becomes at most one of each; clr, add and x are what the run has
      come to so far. */
  function Squeezed(cs: seq<BitCmd>, clr: Mode, add: Mode, x: Mode): seq<BitCmd> {
    if cs == [] then Flush(clr, add, x)
    else
      var b := cs[0].bits;
      if cs[0].cmd == '-' then Squeezed(cs[1..], Or(clr, b), Minus(add, b), Minus(x, b))
      else if cs[0].cmd == '+' then Squeezed(cs[1..], Minus(clr, b), Or(add, b), Minus(x, b))
      else if cs[0].cmd == 'X' then Squeezed(cs[1..], clr, add, Or(x, Minus(b, add)))
      else Flush(clr, add, x) + [cs[0]] + Squeezed(cs[1..], NONE, NONE, NONE)
  }

  /** What a run of '-', '+' and 'X' does. */
  function Effect(clr: Mode, add: Mode, x: Mode, mode: Mode, omode: Mode): Mode {
    Or(Or(Minus(mode, clr), add), if MayExecute(omode) then x else NONE)
  }

  lemma RunMaybe(cmd: char, bits: Mode, mode: Mode, omode: Mode)
    requires cmd == '+' || cmd == '-' || cmd == 'X'
    ensures Run(Maybe(cmd, bits), mode, omode) == Step(BitCmd(cmd, NO_FLAGS, bits), mode, omode)
  {
    hide Run, Or, Minus, MayExecute;
    if bits != NONE {
      RunOne(BitCmd(cmd, NO_FLAGS, bits), mode, omode);
    } else {
      NoBits(mode);
      RunNone(mode, omode);
    }
  }

  lemma RunNone(mode: Mode, omode: Mode)
    ensures Run([], mode, omode) == mode
  {
  }

  lemma NoBits(mode: Mode)
    ensures Minus(mode, NONE) == mode && Or(mode, NONE) == mode && Minus(NONE, mode) == NONE
  {
  }

  lemma EffectOfFlush(clr: Mode, add: Mode, x: Mode, mode: Mode, omode: Mode)
    ensures Run(Flush(clr, add, x), mode, omode) == Effect(clr, add, x, mode, omode)
  {
    hide Run, MayExecute, Maybe, Or, Minus, Copied;
    var mode1 := Minus(mode, clr);
    var mode2 := Or(mode1, add);
    RunOn(Maybe('-', clr) + Maybe('+', add), Maybe('X', x), mode, omode);
    RunOn(Maybe('-', clr), Maybe('+', add), mode, omode);
    RunMaybe('-', clr, mode, omode);
    RunMaybe('+', add, mode1, omode);
    RunMaybe('X', x, mode2, omode);
    NoBits(mode2);
  }

  lemma Cleared(m: Mode, clr: Mode, add: Mode, x: Mode, b: Mode)
    ensures Or(Or(Minus(m, Or(clr, b)), Minus(add, b)), Minus(x, b)) == Minus(Or(Or(Minus(m, clr), add), x), b)
  {
  }

  lemma Added(m: Mode, clr: Mode, add: Mode, x: Mode, b: Mode)
    ensures Or(Or(Minus(m, Minus(clr, b)), Or(add, b)), Minus(x, b)) == Or(Or(Or(Minus(m, clr), add), x), b)
  {
  }

  lemma AddedX(m: Mode, add: Mode, x: Mode, b: Mode)
    ensures Or(Or(m, add), Or(x, Minus(b, add))) == Or(Or(Or(m, add), x), b)
  {
  }

  /** One more command in the run. */
  lemma EffectStep(clr: Mode, add: Mode, x: Mode, c: BitCmd, mode: Mode, omode: Mode)
    ensures c.cmd == '-' ==> Effect(Or(clr, c.bits), Minus(add, c.bits), Minus(x, c.bits), mode, omode) == Step(c, Effect(clr, add, x, mode, omode), omode)
    ensures c.cmd == '+' ==> Effect(Minus(clr, c.bits), Or(add, c.bits), Minus(x, c.bits), mode, omode) == Step(c, Effect(clr, add, x, mode, omode), omode)
    ensures c.cmd == 'X' ==> Effect(clr, add, Or(x, Minus(c.bits, add)), mode, omode) == Step(c, Effect(clr, add, x, mode, omode), omode)
  {
    hide MayExecute, Copied, Or, Minus;
    var x' := if MayExecute(omode) then x else NONE;
    NoBits(c.bits);
    Cleared(mode, clr, add, x', c.bits);
    Added(mode, clr, add, x', c.bits);
    AddedX(Minus(mode, clr), add, x', c.bits);
  }

  lemma NoEffect(mode: Mode, omode: Mode)
    ensures Effect(NONE, NONE, NONE, mode, omode) == mode
  {
    NoBits(mode);
  }

  /** Squeezing keeps the meaning, for every mode. */
  lemma {:induction false} SqueezedMeans(cs: seq<BitCmd>, clr: Mode, add: Mode, x: Mode, mode: Mode, omode: Mode)
    ensures Run(Squeezed(cs, clr, add, x), mode, omode) == Run(cs, Effect(clr, add, x, mode, omode), omode)
    decreases cs
  {
    hide Or, Minus, Step, Effect, Flush;
    EffectOfFlush(clr, add, x, mode, omode);
    RunNone(Effect(clr, add, x, mode, omode), omode);
    if cs != [] {
      var c := cs[0];
      var b := c.bits;
      EffectStep(clr, add, x, c, mode, omode);
      if c.cmd == '-' {
        SqueezedMeans(cs[1..], Or(clr, b), Minus(add, b), Minus(x, b), mode, omode);
      } else if c.cmd == '+' {
        SqueezedMeans(cs[1..], Minus(clr, b), Or(add, b), Minus(x, b), mode, omode);
      } else if c.cmd == 'X' {
        SqueezedMeans(cs[1..], clr, add, Or(x, Minus(b, add)), mode, omode);
      } else {
        var e := Effect(clr, add, x, mode, omode);
        RunOn(Flush(clr, add, x) + [c], Squeezed(cs[1..], NONE, NONE, NONE), mode, omode);
        RunOn(Flush(clr, add, x), [c], mode, omode);
        RunOne(c, e, omode);
        SqueezedMeans(cs[1..], NONE, NONE, NONE, Step(c, e, omode), omode);
        NoEffect(Step(c, e, omode), omode);
      }
    }
  }

  function Rank(c: BitCmd): nat {
    if c.cmd == '-' then 0 else if c.cmd == '+' then 1 else 2
  }

  /** Between copy commands there is at most one '-', one '+' and one 'X', in this order, and none of
      them is empty. */
  ghost predicate Tidy(cs: seq<BitCmd>) {
    && (forall i :: 0 <= i < |cs| - 1 && InGroup(cs[i]) && InGroup(cs[i + 1]) ==> Rank(cs[i]) < Rank(cs[i + 1]))
    && (forall i :: 0 <= i < |cs| && InGroup(cs[i]) ==> cs[i].bits != NONE)
  }

  lemma FlushIsTidy(clr: Mode, add: Mode, x: Mode)
    ensures Tidy(Flush(clr, add, x))
  {
  }

  lemma {:induction false} SqueezedIsTidy(cs: seq<BitCmd>, clr: Mode, add: Mode, x: Mode)
    ensures Tidy(Squeezed(cs, clr, add, x))
    decreases cs
  {
    hide Or, Minus, Flush, Tidy;
    FlushIsTidy(clr, add, x);
    if cs != [] {
      var b := cs[0].bits;
      if cs[0].cmd == '-' {
        SqueezedIsTidy(cs[1..], Or(clr, b), Minus(add, b), Minus(x, b));
      } else if cs[0].cmd == '+' {
        SqueezedIsTidy(cs[1..], Minus(clr, b), Or(add, b), Minus(x, b));
      } else if cs[0].cmd == 'X' {
        SqueezedIsTidy(cs[1..], clr, add, Or(x, Minus(b, add)));
      } else {
        SqueezedIsTidy(cs[1..], NONE, NONE, NONE);
        TidyJoin(Flush(clr, add, x), cs[0], Squeezed(cs[1..], NONE, NONE, NONE));
      }
    }
  }

  lemma TidyJoin(s: seq<BitCmd>, c: BitCmd, t: seq<BitCmd>)
    requires Tidy(s) && Tidy(t) && !InGroup(c)
    ensures Tidy(s + [c] + t)
  {
    var u := s + [c] + t;
    forall i | 0 <= i < |u| - 1 && InGroup(u[i]) && InGroup(u[i + 1]) ensures Rank(u[i]) < Rank(u[i + 1]) {
      if i < |s| {
        assert u[i] == s[i] && u[i + 1] == s[i + 1];
      } else {
        assert u[i] == t[i - |s| - 1] && u[i + 1] == t[i - |s|];
      }
    }
  }

  /** Squeezing a whole list keeps its meaning for every mode, and leaves it tidy. */
  lemma SqueezedRight(cs: seq<BitCmd>)
    ensures Tidy(Squeezed(cs, NONE, NONE, NONE))
    ensures forall mode, omode :: Run(Squeezed(cs, NONE, NONE, NONE), mode, omode) == Run(cs, mode, omode)
  {
    SqueezedIsTidy(cs, NONE, NONE, NONE);
    forall mode, omode ensures Run(Squeezed(cs, NONE, NONE, NONE), mode, omode) == Run(cs, mode, omode) {
      SqueezedMeans(cs, NONE, NONE, NONE, mode, omode);
      NoEffect(mode, omode);
    }
  }
}
