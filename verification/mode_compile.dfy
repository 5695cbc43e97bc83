/** src/bin/chmod/setmode.c: the bit commands that setmode makes of a parsed symbolic mode, and
    what the clauses ask for. */
module ModeCompile {
  import opened ModeBits
  import opened ModeText

  function WhoBit(c: char): Mode {
    if c == 'a' then STANDARD_BITS
    else if c == 'u' then Or(S_ISUID, S_IRWXU)
    else if c == 'g' then Or(S_ISGID, S_IRWXG)
    else S_IRWXO
  }

  function WhoBits(who: string): Mode {
    if who == "" then NONE else Or(WhoBits(who[..|who| - 1]), WhoBit(who[|who| - 1]))
  }

  /** The bits that the set-id letter stands for: none when only others are asked for. */
  function SetIds(who: Mode): Mode {
    if who == NONE || Minus(who, S_IRWXO) != NONE then Or(S_ISUID, S_ISGID) else NONE
  }

  function PermBit(c: char, who: Mode): Mode {
    if c == 'r' then READ
    else if c == 's' then SetIds(who)
    else if c == 'w' then WRITE
    else if c == 'x' then EXEC
    else NONE
  }

  /** addcmd, for everything but copies. mask is what the umask leaves. */
  function AddCmds(op: char, who: Mode, bits: Mode, mask: Mode): seq<BitCmd> {
    var w := if who != NONE then who else mask;
    if op == '=' then
      [BitCmd('-', NO_FLAGS, if who != NONE then who else STANDARD_BITS), BitCmd('+', NO_FLAGS, And(w, bits))]
    else [BitCmd(op, NO_FLAGS, And(w, bits))]
  }

  /** addcmd, for a copy. */
  function CopyCmd(cmd: char, who: Mode, op: char, mask: Mode): BitCmd {
    var clr, add := op == '-' || op == '=', op == '+' || op == '=';
    if who != NONE then
      BitCmd(cmd, Flags(clr, add, And(who, Mode(0x20)) != NONE, And(who, Mode(0x4)) != NONE, And(who, Mode(0x100)) != NONE), ALL)
    else BitCmd(cmd, Flags(clr, add, true, true, true), mask)
  }

  /** What the end of an action adds. */
  function EndCmds(op: char, who: Mode, perm: Mode, permX: Mode, done: bool, mask: Mode): seq<BitCmd> {
    (if perm != NONE || (op == '=' && !done) then AddCmds(op, who, perm, mask) else [])
    + (if permX != NONE then AddCmds('X', who, permX, mask) else [])
  }

  /** What a copy letter adds. */
  function FlushCmds(c: char, op: char, who: Mode, perm: Mode, permX: Mode, mask: Mode): seq<BitCmd> {
    (if perm != NONE then AddCmds(op, who, perm, mask) else [])
    + (if op == '+' && permX != NONE then AddCmds('X', who, permX, mask) else [])
    + [CopyCmd(c, who, op, mask)]
  }

  /** The loop of setmode over the permissions of one action: perm and permX are the bits that have
      not been added yet, and done tells that an assignment has been. */
  function PermCmds(op: char, who: Mode, perms: string, perm: Mode, permX: Mode, done: bool, mask: Mode): seq<BitCmd> {
    if perms == "" then EndCmds(op, who, perm, permX, done, mask)
    else
      var c := perms[0];
      if IsCopy(c) then
        FlushCmds(c, op, who, perm, permX, mask)
        + PermCmds(op, who, perms[1..], NONE, if op == '+' then NONE else permX, done || op == '=', mask)
      else
        PermCmds(op, who, perms[1..], Or(perm, PermBit(c, who)), if c == 'X' then EXEC else permX, done, mask)
  }

  function ActionCmds(who: Mode, a: Action, mask: Mode): seq<BitCmd> {
    PermCmds(a.op, who, a.perms, NONE, NONE, false, mask)
  }

  function ActionsCmds(who: Mode, as': seq<Action>, mask: Mode): seq<BitCmd> {
    if as' == [] then [] else ActionCmds(who, as'[0], mask) + ActionsCmds(who, as'[1..], mask)
  }

  function ClausesCmds(cs: seq<Clause>, mask: Mode): seq<BitCmd> {
    if cs == [] then [] else ActionsCmds(WhoBits(cs[0].who), cs[0].actions, mask) + ClausesCmds(cs[1..], mask)
  }

  // What the clauses ask for.

  /** The permissions that the letters of an action name, for a file with mode omode. */
  function Named(perms: string, who: Mode, omode: Mode): Mode {
    if perms == "" then NONE
    else
      var c := perms[0];
      Or(if c == 'X' then if MayExecute(omode) then EXEC else NONE else PermBit(c, who), Named(perms[1..], who, omode))
  }

  /** v in the places of user, group and others. */
  function Everywhere(v: Mode): Mode {
    Mode((v.b << 6) | (v.b << 3) | v.b)
  }

  /** A clause without users means everybody, but for the bits of the umask. */
  function Within(who: Mode, mask: Mode): Mode {
    if who != NONE then who else mask
  }

  predicate IsCopyAction(a: Action) {
    |a.perms| == 1 && IsCopy(a.perms[0])
  }

  /** What one action asks for. */
  function Asked(who: Mode, a: Action, mode: Mode, omode: Mode, mask: Mode): Mode {
    var w := Within(who, mask);
    if IsCopyAction(a) then
      var to, v := And(w, Mode(0x1FF)), Everywhere(CopyOf(a.perms[0], mode));
      if a.op == '+' then Or(mode, And(v, to))
      else if a.op == '-' then Minus(mode, And(v, to))
      else Or(Minus(mode, to), And(v, to))
    else
      var bits := And(w, Named(a.perms, who, omode));
      if a.op == '+' then Or(mode, bits)
      else if a.op == '-' then Minus(mode, bits)
      else Or(Minus(mode, if who != NONE then who else STANDARD_BITS), bits)
  }

  function AskedActions(who: Mode, as': seq<Action>, mode: Mode, omode: Mode, mask: Mode): Mode {
    if as' == [] then mode else AskedActions(who, as'[1..], Asked(who, as'[0], mode, omode, mask), omode, mask)
  }

  /** What a symbolic mode asks for: one clause after the other, and in each one action after the
      other. */
  function AskedClauses(cs: seq<Clause>, mode: Mode, omode: Mode, mask: Mode): Mode {
    if cs == [] then mode
    else AskedClauses(cs[1..], AskedActions(WhoBits(cs[0].who), cs[0].actions, mode, omode, mask), omode, mask)
  }

  /** Copy letters stand alone. */
  predicate Unmixed(a: Action) {
    IsCopyAction(a) || forall i :: 0 <= i < |a.perms| ==> !IsCopy(a.perms[i])
  }

  /** X is taken away where it could matter: the code emits a command that sets it. */
  predicate TakesX(a: Action, who: Mode, mask: Mode) {
    a.op == '-' && 'X' in a.perms && And(Within(who, mask), EXEC) != NONE
  }

  // An action of permission letters.

  function Letters(perms: string, who: Mode): Mode {
    if perms == "" then NONE else Or(PermBit(perms[0], who), Letters(perms[1..], who))
  }

  lemma OrLaws(a: Mode, b: Mode, c: Mode)
    ensures Or(Or(a, b), c) == Or(a, Or(b, c)) && Or(a, b) == Or(b, a) && Or(a, a) == a && Or(a, NONE) == a && Or(NONE, a) == a
  {
  }

  lemma {:induction false} PermsEnd(op: char, who: Mode, perms: string, perm: Mode, permX: Mode, done: bool, mask: Mode)
    requires forall i :: 0 <= i < |perms| ==> !IsCopy(perms[i])
    ensures PermCmds(op, who, perms, perm, permX, done, mask) ==
      EndCmds(op, who, Or(perm, Letters(perms, who)), if 'X' in perms then EXEC else permX, done, mask)
    decreases perms
  {
    hide Or, PermBit, EndCmds;
    if perms == "" {
      OrLaws(perm, NONE, NONE);
    } else {
      var b := PermBit(perms[0], who);
      OrLaws(perm, b, Letters(perms[1..], who));
      PermsEnd(op, who, perms[1..], Or(perm, b), if perms[0] == 'X' then EXEC else permX, done, mask);
      assert 'X' in perms <==> perms[0] == 'X' || 'X' in perms[1..];
    }
  }

  lemma {:induction false} NamedLetters(perms: string, who: Mode, omode: Mode)
    ensures Named(perms, who, omode) == Or(Letters(perms, who), if 'X' in perms && MayExecute(omode) then EXEC else NONE)
  {
    hide Or, MayExecute;
    OrLaws(NONE, NONE, NONE);
    if perms != "" {
      var rest := Letters(perms[1..], who);
      var x := if MayExecute(omode) then EXEC else NONE;
      NamedLetters(perms[1..], who, omode);
      assert 'X' in perms <==> perms[0] == 'X' || 'X' in perms[1..];
      var b, y := PermBit(perms[0], who), if 'X' in perms[1..] then x else NONE;
      OrLaws(b, rest, y);
      OrLaws(x, rest, y);
      OrLaws(rest, x, NONE);
      OrLaws(rest, x, y);
      OrLaws(x, x, NONE);
      OrLaws(rest, NONE, NONE);
    }
  }

  /** What the commands of addcmd do. */
  function Adds(op: char, who: Mode, bits: Mode, mode: Mode, omode: Mode, mask: Mode): Mode {
    var b := And(Within(who, mask), bits);
    if op == '=' then Or(Minus(mode, if who != NONE then who else STANDARD_BITS), b)
    else if op == '-' then Minus(mode, b)
    else if op == '+' || MayExecute(omode) then Or(mode, b)
    else mode
  }

  lemma AddMeans(op: char, who: Mode, bits: Mode, mode: Mode, omode: Mode, mask: Mode)
    requires IsOp(op) || op == 'X'
    ensures Run(AddCmds(op, who, bits, mask), mode, omode) == Adds(op, who, bits, mode, omode, mask)
  {
    hide Or, And, Minus, MayExecute;
    var cs := AddCmds(op, who, bits, mask);
    RunOne(cs[0], mode, omode);
    if op == '=' {
      assert cs == [cs[0]] + [cs[1]];
      RunOn([cs[0]], [cs[1]], mode, omode);
      RunOne(cs[1], Step(cs[0], mode, omode), omode);
    } else {
      assert cs == [cs[0]];
    }
  }

  lemma AddNothing(op: char, who: Mode, mode: Mode, omode: Mode, mask: Mode)
    requires IsOp(op) || op == 'X'
    ensures op != '=' ==> Adds(op, who, NONE, mode, omode, mask) == mode
  {
    NoneAnd(Within(who, mask));
    NoBits(mode);
  }

  lemma NoneAnd(m: Mode)
    ensures And(m, NONE) == NONE && And(NONE, m) == NONE
  {
  }

  /** The end of an action, when nothing was copied. */
  lemma EndMeans(op: char, who: Mode, perm: Mode, permX: Mode, mode: Mode, omode: Mode, mask: Mode)
    requires IsOp(op)
    ensures Run(EndCmds(op, who, perm, permX, false, mask), mode, omode) ==
      Adds('X', who, permX, Adds(op, who, perm, mode, omode, mask), omode, mask)
  {
    hide Adds, Run, AddCmds;
    var first := if perm != NONE || op == '=' then AddCmds(op, who, perm, mask) else [];
    var mid := Adds(op, who, perm, mode, omode, mask);
    RunOn(first, if permX != NONE then AddCmds('X', who, permX, mask) else [], mode, omode);
    AddMeans(op, who, perm, mode, omode, mask);
    AddMeans('X', who, permX, mid, omode, mask);
    AddNothing(op, who, mode, omode, mask);
    AddNothing('X', who, mid, omode, mask);
    RunNone(mode, omode);
    RunNone(mid, omode);
  }

  lemma OrAnd(m: Mode, w: Mode, p: Mode, q: Mode)
    ensures Or(Or(m, And(w, p)), And(w, q)) == Or(m, And(w, Or(p, q)))
  {
  }

  lemma MinusAnd(w: Mode, p: Mode, q: Mode)
    ensures And(w, q) == NONE ==> And(w, Or(p, q)) == And(w, p)
  {
    if And(w, q) == NONE {
      AndOr(w.b, p.b, q.b);
    }
  }

  lemma AndOr(w: bv32, p: bv32, q: bv32)
    ensures w & (p | q) == (w & p) | (w & q)
    ensures (w & p) | 0 == w & p
  {
  }

  /** The two ways to come to the same mode: letters and X one after the other, or together. */
  lemma Together(op: char, who: Mode, p: Mode, permX: Mode, mode: Mode, omode: Mode, mask: Mode)
    requires IsOp(op) && (op == '-' ==> And(Within(who, mask), permX) == NONE)
    ensures Adds('X', who, permX, Adds(op, who, p, mode, omode, mask), omode, mask) ==
      Adds(op, who, Or(p, if MayExecute(omode) then permX else NONE), mode, omode, mask)
  {
    hide Or, And, Minus, MayExecute;
    var w := Within(who, mask);
    var base := Minus(mode, if who != NONE then who else STANDARD_BITS);
    OrLaws(p, NONE, NONE);
    OrAnd(mode, w, p, permX);
    OrAnd(base, w, p, permX);
    MinusAnd(w, p, permX);
    OrLaws(Minus(mode, And(w, p)), NONE, NONE);
  }

  lemma AskedLetters(who: Mode, a: Action, mode: Mode, omode: Mode, mask: Mode)
    requires IsOp(a.op) && !IsCopyAction(a)
    ensures Asked(who, a, mode, omode, mask) == Adds(a.op, who, Named(a.perms, who, omode), mode, omode, mask)
  {
  }

  /** An action of permission letters does what it asks for, for every mode, unless it takes X away
      where that could matter. */
  lemma LettersMean(who: Mode, a: Action, mode: Mode, omode: Mode, mask: Mode)
    requires IsOp(a.op) && !IsCopyAction(a) && Unmixed(a) && !TakesX(a, who, mask)
    ensures Run(ActionCmds(who, a, mask), mode, omode) == Asked(who, a, mode, omode, mask)
  {
    var p := Letters(a.perms, who);
    var permX := if 'X' in a.perms then EXEC else NONE;
    NoneAnd(Within(who, mask));
    PermsEnd(a.op, who, a.perms, NONE, NONE, false, mask);
    hide Or, And, Minus, MayExecute, PermCmds, Letters, Named, EndCmds, Run, Adds, Asked;
    OrLaws(p, NONE, NONE);
    EndMeans(a.op, who, p, permX, mode, omode, mask);
    NamedLetters(a.perms, who, omode);
    AskedLetters(who, a, mode, omode, mask);
    Together(a.op, who, p, permX, mode, omode, mask);
  }

  /** Taking X away where it matters does something else: for a file with mode EXEC the code sets
      the bits that it should clear. */
  lemma TakesXFails(who: Mode, a: Action, mask: Mode)
    requires IsOp(a.op) && !IsCopyAction(a) && Unmixed(a) && TakesX(a, who, mask)
    ensures Run(ActionCmds(who, a, mask), EXEC, EXEC) != Asked(who, a, EXEC, EXEC, mask)
  {
    var w, p := Within(who, mask), Letters(a.perms, who);
    PermsEnd(a.op, who, a.perms, NONE, NONE, false, mask);
    OrLaws(p, NONE, NONE);
    EndMeans(a.op, who, p, EXEC, EXEC, EXEC, mask);
    NamedLetters(a.perms, who, EXEC);
    AskedLetters(who, a, EXEC, EXEC, mask);
    XMayExecute();
    hide MayExecute, PermCmds, Letters, Named, EndCmds, Run, Asked, Or, And, Minus;
    SetNotCleared(w, p);
  }

  lemma XMayExecute()
    ensures MayExecute(EXEC)
  {
    assert EXEC.b & (S_IFDIR.b | EXEC.b) == 0x49;
  }

  lemma SetNotCleared(w: Mode, p: Mode)
    requires And(w, EXEC) != NONE
    ensures Or(Minus(EXEC, And(w, p)), And(w, EXEC)) != Minus(EXEC, And(w, Or(p, EXEC)))
  {
    var l, r := Or(Minus(EXEC, And(w, p)), And(w, EXEC)), Minus(EXEC, And(w, Or(p, EXEC)));
    assert And(l, And(w, EXEC)) == And(w, EXEC);
    assert And(r, And(w, EXEC)) == NONE;
  }

  // A copy.

  /** Users are named as whole triples. */
  predicate Triples(who: Mode) {
    && (And(who, S_IRWXU) == S_IRWXU || And(who, S_IRWXU) == NONE)
    && (And(who, S_IRWXG) == S_IRWXG || And(who, S_IRWXG) == NONE)
    && (And(who, S_IRWXO) == S_IRWXO || And(who, S_IRWXO) == NONE)
  }

  lemma TriplesOr(m: Mode, n: Mode)
    requires Triples(m) && Triples(n)
    ensures Triples(Or(m, n))
  {
  }

  lemma TriplesBit(c: char)
    ensures Triples(WhoBit(c)) && Triples(NONE)
  {
  }

  lemma {:induction false} WhoTriples(who: string)
    ensures Triples(WhoBits(who))
  {
    hide Triples, Or, WhoBit;
    TriplesBit('a');
    if who != "" {
      WhoTriples(who[..|who| - 1]);
      TriplesBit(who[|who| - 1]);
      TriplesOr(WhoBits(who[..|who| - 1]), WhoBit(who[|who| - 1]));
    }
  }

  /** The places of the flags are those of the users. */
  lemma PlacesOfUsers(who: Mode, v: Mode, clr: bool, add: bool)
    requires Triples(who) && Minus(v, S_IRWXO) == NONE
    ensures var f := Flags(clr, add, And(who, Mode(0x20)) != NONE, And(who, Mode(0x4)) != NONE, And(who, Mode(0x100)) != NONE);
      And(Places(f, v), ALL) == And(Everywhere(v), And(who, Mode(0x1FF)))
  {
  }

  lemma PlacesOfAll(mask: Mode, v: Mode, clr: bool, add: bool)
    requires Minus(v, S_IRWXO) == NONE
    ensures And(Places(Flags(clr, add, true, true, true), v), mask) == And(Everywhere(v), And(mask, Mode(0x1FF)))
  {
  }

  lemma CopySmall(c: char, mode: Mode)
    ensures Minus(CopyOf(c, mode), S_IRWXO) == NONE && Minus(S_IRWXO, S_IRWXO) == NONE
  {
  }

  lemma EverywhereAll(to: Mode)
    ensures And(Everywhere(S_IRWXO), And(to, Mode(0x1FF))) == And(to, Mode(0x1FF))
  {
  }

  /** A copy goes where the users, or the umask, say. */
  lemma CopyPlaces(c: char, who: Mode, op: char, mask: Mode, v: Mode)
    requires Triples(who) && Minus(v, S_IRWXO) == NONE
    ensures var cmd := CopyCmd(c, who, op, mask);
      And(Places(cmd.cmd2, v), cmd.bits) == And(Everywhere(v), And(Within(who, mask), Mode(0x1FF)))
  {
    hide And, Places, Everywhere, Triples, Minus;
    var clr, add := op == '-' || op == '=', op == '+' || op == '=';
    if who != NONE {
      PlacesOfUsers(who, v, clr, add);
    } else {
      PlacesOfAll(mask, v, clr, add);
    }
  }

  lemma CopyCmdSays(c: char, who: Mode, op: char, mask: Mode, mode: Mode, omode: Mode)
    requires IsCopy(c)
    ensures var cmd := CopyCmd(c, who, op, mask);
      cmd.cmd == c && cmd.cmd2.clr == (op == '-' || op == '=') && cmd.cmd2.add == (op == '+' || op == '=') && Step(cmd, mode, omode) == Copied(cmd, mode)
  {
  }

  lemma CopiedSays(cmd: BitCmd, mode: Mode, from: Mode, all: Mode)
    requires from == And(Places(cmd.cmd2, CopyOf(cmd.cmd, mode)), cmd.bits) && all == And(Places(cmd.cmd2, S_IRWXO), cmd.bits)
    ensures Copied(cmd, mode) ==
      if cmd.cmd2.clr then if cmd.cmd2.add then Or(Minus(mode, all), from) else Minus(mode, from)
      else if cmd.cmd2.add then Or(mode, from) else mode
  {
    hide And, Or, Minus, Places, CopyOf;
  }

  lemma AskedCopy(who: Mode, a: Action, mode: Mode, omode: Mode, mask: Mode, from: Mode, all: Mode)
    requires IsCopyAction(a) && all == And(Within(who, mask), Mode(0x1FF)) && from == And(Everywhere(CopyOf(a.perms[0], mode)), all)
    ensures Asked(who, a, mode, omode, mask) ==
      if a.op == '+' then Or(mode, from) else if a.op == '-' then Minus(mode, from) else Or(Minus(mode, all), from)
  {
    hide And, Or, Minus, Everywhere, CopyOf, Within;
  }

  lemma CopyMeans(who: Mode, a: Action, mode: Mode, omode: Mode, mask: Mode)
    requires IsOp(a.op) && IsCopyAction(a) && Triples(who)
    ensures Run(ActionCmds(who, a, mask), mode, omode) == Asked(who, a, mode, omode, mask)
  {
    hide And, Or, Minus, Places, Everywhere, Triples, CopyOf, Run, ActionCmds, CopyCmd, Step, Copied, Asked, Within;
    var c := a.perms[0];
    var cmd := CopyCmd(c, who, a.op, mask);
    CopyAlone(who, a, mask);
    RunOne(cmd, mode, omode);
    CopyCmdSays(c, who, a.op, mask, mode, omode);
    CopySmall(c, mode);
    CopyPlaces(c, who, a.op, mask, CopyOf(c, mode));
    CopyPlaces(c, who, a.op, mask, S_IRWXO);
    EverywhereAll(Within(who, mask));
    var all := And(Within(who, mask), Mode(0x1FF));
    var from := And(Everywhere(CopyOf(c, mode)), all);
    CopiedSays(cmd, mode, from, all);
    AskedCopy(who, a, mode, omode, mask, from, all);
  }

  lemma CopyAlone(who: Mode, a: Action, mask: Mode)
    requires IsOp(a.op) && IsCopyAction(a)
    ensures ActionCmds(who, a, mask) == [CopyCmd(a.perms[0], who, a.op, mask)]
  {
    hide Or, And;
    var done := a.op == '=';
    assert a.perms[1..] == "";
    assert PermCmds(a.op, who, "", NONE, NONE, done, mask) == EndCmds(a.op, who, NONE, NONE, done, mask) == [];
    assert FlushCmds(a.perms[0], a.op, who, NONE, NONE, mask) == [CopyCmd(a.perms[0], who, a.op, mask)];
  }

  /** One action does what it asks for, for every mode. */
  lemma ActionMeans(who: Mode, a: Action, mode: Mode, omode: Mode, mask: Mode)
    requires IsOp(a.op) && Unmixed(a) && Triples(who) && !TakesX(a, who, mask)
    ensures Run(ActionCmds(who, a, mask), mode, omode) == Asked(who, a, mode, omode, mask)
  {
    if IsCopyAction(a) {
      CopyMeans(who, a, mode, omode, mask);
    } else {
      LettersMean(who, a, mode, omode, mask);
    }
  }

  /** The commands agree with what is asked for on every mode of every file. */
  ghost predicate Agrees(who: Mode, a: Action, mask: Mode) {
    forall mode, omode :: Run(ActionCmds(who, a, mask), mode, omode) == Asked(who, a, mode, omode, mask)
  }

  /** Exactly when setmode translates an action faithfully. */
  lemma FaithfulAction(who: Mode, a: Action, mask: Mode)
    requires IsOp(a.op) && Unmixed(a) && Triples(who)
    ensures Agrees(who, a, mask) <==> !TakesX(a, who, mask)
  {
    hide Run, Asked, Triples, ActionCmds;
    if TakesX(a, who, mask) {
      if !IsCopyAction(a) {
        TakesXFails(who, a, mask);
      }
    } else {
      forall mode, omode ensures Run(ActionCmds(who, a, mask), mode, omode) == Asked(who, a, mode, omode, mask) {
        ActionMeans(who, a, mode, omode, mask);
      }
    }
  }

  /** Actions whose translation is faithful. */
  ghost predicate Plain(who: Mode, as': seq<Action>, mask: Mode) {
    forall i :: 0 <= i < |as'| ==> IsOp(as'[i].op) && Unmixed(as'[i]) && !TakesX(as'[i], who, mask)
  }

  ghost predicate PlainClauses(cs: seq<Clause>, mask: Mode) {
    forall i :: 0 <= i < |cs| ==> Plain(WhoBits(cs[i].who), cs[i].actions, mask)
  }

  lemma {:induction false} ActionsMean(who: Mode, as': seq<Action>, mode: Mode, omode: Mode, mask: Mode)
    requires Plain(who, as', mask) && Triples(who)
    ensures Run(ActionsCmds(who, as', mask), mode, omode) == AskedActions(who, as', mode, omode, mask)
  {
    hide Run, Asked, ActionCmds, Triples, Unmixed, TakesX;
    if as' == [] {
      RunNone(mode, omode);
    } else {
      ActionMeans(who, as'[0], mode, omode, mask);
      RunOn(ActionCmds(who, as'[0], mask), ActionsCmds(who, as'[1..], mask), mode, omode);
      ActionsMean(who, as'[1..], Asked(who, as'[0], mode, omode, mask), omode, mask);
    }
  }

  /** The commands that setmode builds do what the clauses ask for, one by one, for every mode and
      every umask. */
  lemma {:induction false} ClausesMean(cs: seq<Clause>, mode: Mode, omode: Mode, mask: Mode)
    requires PlainClauses(cs, mask)
    ensures Run(ClausesCmds(cs, mask), mode, omode) == AskedClauses(cs, mode, omode, mask)
  {
    hide Run, AskedActions, ActionsCmds, Triples, WhoBits, Plain;
    if cs == [] {
      RunNone(mode, omode);
    } else {
      var who := WhoBits(cs[0].who);
      WhoTriples(cs[0].who);
      ActionsMean(who, cs[0].actions, mode, omode, mask);
      RunOn(ActionsCmds(who, cs[0].actions, mask), ClausesCmds(cs[1..], mask), mode, omode);
      ClausesMean(cs[1..], AskedActions(who, cs[0].actions, mode, omode, mask), omode, mask);
    }
  }
}
