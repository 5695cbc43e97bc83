/** src/bin/chmod/setmode.c: what a symbolic mode does to each bit of a file mode. */
module ModeLaws {
  import opened ModeWords
  import opened ModeBits
  import opened ModeText
  import opened ModeCompile

  /** The bit of the permission z (read, write, execute, set-id) of the user y (user, group, others);
      others have no set-id bit. */
  function BitOf(y: char, z: char): bv32 {
    match (y, z)
    case ('u', 'r') => 0x100
    case ('u', 'w') => 0x80
    case ('u', 'x') => 0x40
    case ('g', 'r') => 0x20
    case ('g', 'w') => 0x10
    case ('g', 'x') => 0x8
    case ('o', 'r') => 0x4
    case ('o', 'w') => 0x2
    case ('o', 'x') => 0x1
    case ('u', 's') => 0x800
    case ('g', 's') => 0x400
    case _ => 0
  }

  predicate IsUser(y: char) {
    y == 'u' || y == 'g' || y == 'o'
  }

  predicate IsRight(z: char) {
    z == 'r' || z == 'w' || z == 'x' || z == 's'
  }

  predicate On(m: Mode, y: char, z: char) {
    Has(m.b, BitOf(y, z))
  }

  lemma OneBit(y: char, z: char)
    ensures Single(BitOf(y, z))
  {
  }

  lemma OnIs(m: Mode, y: char, z: char)
    ensures On(m, y, z) <==> Has(m.b, BitOf(y, z))
  {
  }

  lemma RawOr(m: Mode, n: Mode)
    ensures Or(m, n).b == m.b | n.b
  {
  }

  lemma RawAnd(m: Mode, n: Mode)
    ensures And(m, n).b == m.b & n.b
  {
  }

  lemma RawMinus(m: Mode, n: Mode)
    ensures Minus(m, n).b == m.b & !n.b
  {
  }

  lemma OnOr(m: Mode, n: Mode, y: char, z: char)
    ensures On(Or(m, n), y, z) <==> On(m, y, z) || On(n, y, z)
  {
    hide *;
    RawOr(m, n);
    BitOr(m.b, n.b, BitOf(y, z));
    OnIs(m, y, z);
    OnIs(n, y, z);
    OnIs(Or(m, n), y, z);
  }

  lemma OnAnd(m: Mode, n: Mode, y: char, z: char)
    ensures On(And(m, n), y, z) <==> On(m, y, z) && On(n, y, z)
  {
    hide *;
    RawAnd(m, n);
    OneBit(y, z);
    BitAnd(m.b, n.b, BitOf(y, z));
    OnIs(m, y, z);
    OnIs(n, y, z);
    OnIs(And(m, n), y, z);
  }

  lemma OnMinus(m: Mode, n: Mode, y: char, z: char)
    ensures On(Minus(m, n), y, z) <==> On(m, y, z) && !On(n, y, z)
  {
    hide *;
    RawMinus(m, n);
    OneBit(y, z);
    BitMinus(m.b, n.b, BitOf(y, z));
    OnIs(m, y, z);
    OnIs(n, y, z);
    OnIs(Minus(m, n), y, z);
  }

  lemma OnWhoBit(c: char, y: char, z: char)
    requires IsWho(c) && IsUser(y) && IsRight(z)
    ensures On(WhoBit(c), y, z) <==> (c == 'a' || c == y) && !(y == 'o' && z == 's')
  {
  }

  /** The users of a clause. */
  ghost predicate Picked(who: string, y: char) {
    y in who || 'a' in who
  }

  lemma {:induction false} OnWho(who: string, y: char, z: char)
    requires (forall i :: 0 <= i < |who| ==> IsWho(who[i])) && IsUser(y) && IsRight(z)
    ensures On(WhoBits(who), y, z) <==> Picked(who, y) && !(y == 'o' && z == 's')
  {
    if who != "" {
      var init, c := who[..|who| - 1], who[|who| - 1];
      OnWho(init, y, z);
      OnWhoBit(c, y, z);
      OnOr(WhoBits(init), WhoBit(c), y, z);
      assert who == init + [c];
    }
  }

  /** Only permissions of the mode itself, and no copies. */
  predicate NoCopy(perms: string) {
    forall i :: 0 <= i < |perms| ==> IsPerm(perms[i]) && !IsCopy(perms[i])
  }

  /** The letters give z; X gives x to directories and to what somebody may execute already. */
  ghost predicate Gives(perms: string, z: char, executable: bool) {
    z in perms || (z == 'x' && 'X' in perms && executable)
  }

  /** A directory, or some execute bit. */
  predicate Executable(omode: Mode) {
    Has(omode.b, 0x4000) || On(omode, 'u', 'x') || On(omode, 'g', 'x') || On(omode, 'o', 'x')
  }

  lemma ExecutableIs(omode: Mode)
    ensures MayExecute(omode) <==> Executable(omode)
  {
    MayIs(omode);
    ExecBits();
    hide *;
    ExecLogic(omode.b);
    OnIs(omode, 'u', 'x');
    OnIs(omode, 'g', 'x');
    OnIs(omode, 'o', 'x');
    ExecIs(omode);
  }

  lemma ExecBits()
    ensures BitOf('u', 'x') == 0x40 && BitOf('g', 'x') == 0x8 && BitOf('o', 'x') == 0x1
  {
  }

  lemma MayIs(omode: Mode)
    ensures MayExecute(omode) <==> Has(omode.b, 0x4000 | 0x49)
  {
  }

  lemma ExecIs(omode: Mode)
    ensures Executable(omode) <==> Has(omode.b, 0x4000) || On(omode, 'u', 'x') || On(omode, 'g', 'x') || On(omode, 'o', 'x')
  {
    hide On;
  }

  lemma OnPermBit(c: char, w: Mode, y: char, z: char)
    requires IsPerm(c) && !IsCopy(c) && c != 'X' && IsUser(y) && IsRight(z)
    ensures z != 's' ==> (On(PermBit(c, w), y, z) <==> c == z)
    ensures z == 's' ==> (On(PermBit(c, w), y, z) <==> c == 's' && y != 'o' && (w == NONE || Minus(w, S_IRWXO) != NONE))
  {
  }

  lemma OnExec(y: char, z: char)
    requires IsUser(y) && IsRight(z)
    ensures On(EXEC, y, z) <==> z == 'x'
    ensures !On(NONE, y, z)
  {
  }

  lemma {:induction false} OnNamed(perms: string, w: Mode, omode: Mode, y: char, z: char)
    requires NoCopy(perms) && IsUser(y) && IsRight(z)
    ensures z != 's' ==> (On(Named(perms, w, omode), y, z) <==> Gives(perms, z, Executable(omode)))
    ensures z == 's' ==> (On(Named(perms, w, omode), y, z) <==> 's' in perms && y != 'o' && (w == NONE || Minus(w, S_IRWXO) != NONE))
  {
    OnExec(y, z);
    ExecutableIs(omode);
    if perms != "" {
      var c, rest := perms[0], perms[1..];
      var bit := if c == 'X' then if MayExecute(omode) then EXEC else NONE else PermBit(c, w);
      OnNamed(rest, w, omode, y, z);
      OnOr(bit, Named(rest, w, omode), y, z);
      if c != 'X' {
        OnPermBit(c, w, y, z);
      }
      assert perms == [c] + rest;
      hide On, PermBit, MayExecute, Executable, Or;
    }
  }

  /** What a bit is after an action, when picked tells if its user is meant, and given if the letters
      give the permission. */
  predicate After(op: char, was: bool, picked: bool, given: bool) {
    if op == '+' then was || (picked && given)
    else if op == '-' then was && !(picked && given)
    else if picked then given
    else was
  }

  lemma SetIdWho(who: string, y: char)
    requires (forall i :: 0 <= i < |who| ==> IsWho(who[i])) && (y == 'u' || y == 'g') && Picked(who, y)
    ensures Minus(WhoBits(who), S_IRWXO) != NONE
  {
    OnWho(who, y, 's');
    assert On(WhoBits(who), y, 's') && !On(S_IRWXO, y, 's');
    OnMinus(WhoBits(who), S_IRWXO, y, 's');
    OnExec(y, 's');
  }

  lemma SomeUsers(who: string)
    requires who != "" && forall i :: 0 <= i < |who| ==> IsWho(who[i])
    ensures WhoBits(who) != NONE
  {
    var c := who[|who| - 1];
    var y := if c == 'a' then 'u' else c;
    OnWho(who, y, 'r');
    OnExec(y, 'r');
  }

  /** An action with users changes exactly the bits that its users and letters name. */
  lemma AskedOfUsers(who: string, a: Action, mode: Mode, omode: Mode, mask: Mode, y: char, z: char)
    requires who != "" && (forall i :: 0 <= i < |who| ==> IsWho(who[i])) && IsOp(a.op) && NoCopy(a.perms) && IsUser(y) && IsRight(z)
    ensures var now := Asked(WhoBits(who), a, mode, omode, mask);
      On(now, y, z) <==> After(a.op, On(mode, y, z), Picked(who, y) && !(y == 'o' && z == 's'), Gives(a.perms, z, Executable(omode)))
  {
    assert y == 'u' || y == 'g' || y == 'o';
    hide *;
    SomeUsers(who);
    OnWho(who, y, z);
    var w := WhoBits(who);
    var named := Named(a.perms, w, omode);
    OnNamed(a.perms, w, omode, y, z);
    if Picked(who, y) && y != 'o' && z == 's' {
      SetIdWho(who, y);
    }
    GivesSetId(a.perms, Executable(omode));
    OnAsked(w, a, mode, omode, mask, y, z);
    AfterIs(a.op, On(mode, y, z), Picked(who, y) && !(y == 'o' && z == 's'), Gives(a.perms, z, Executable(omode)));
  }

  lemma GivesSetId(perms: string, executable: bool)
    ensures Gives(perms, 's', executable) <==> 's' in perms
  {
  }

  lemma AfterIs(op: char, was: bool, picked: bool, given: bool)
    ensures op == '+' ==> (After(op, was, picked, given) <==> was || (picked && given))
    ensures op == '-' ==> (After(op, was, picked, given) <==> was && !(picked && given))
    ensures op != '+' && op != '-' ==> (After(op, was, picked, given) <==> if picked then given else was)
  {
  }

  lemma NotCopyAction(a: Action)
    requires NoCopy(a.perms)
    ensures !IsCopyAction(a)
  {
  }

  /** One bit of what an action without copies asks for. */
  lemma OnAsked(w: Mode, a: Action, mode: Mode, omode: Mode, mask: Mode, y: char, z: char)
    requires IsOp(a.op) && NoCopy(a.perms)
    ensures var now, within, cleared := Asked(w, a, mode, omode, mask), if w != NONE then w else mask, if w != NONE then w else STANDARD_BITS;
      var bit := On(within, y, z) && On(Named(a.perms, w, omode), y, z);
      && (a.op == '+' ==> (On(now, y, z) <==> On(mode, y, z) || bit))
      && (a.op == '-' ==> (On(now, y, z) <==> On(mode, y, z) && !bit))
      && (a.op == '=' ==> (On(now, y, z) <==> (On(mode, y, z) && !On(cleared, y, z)) || bit))
  {
    hide *;
    AskedIs(w, a, mode, omode, mask);
    WithinIs(w, mask);
    var within, cleared := if w != NONE then w else mask, if w != NONE then w else STANDARD_BITS;
    var bits := And(within, Named(a.perms, w, omode));
    OnAnd(within, Named(a.perms, w, omode), y, z);
    OnOr(mode, bits, y, z);
    OnMinus(mode, bits, y, z);
    OnMinus(mode, cleared, y, z);
    OnOr(Minus(mode, cleared), bits, y, z);
  }

  /** Without users an action means all of them, but spares the bits of the umask; an assignment
      clears these as well. */
  lemma AskedOfAll(a: Action, mode: Mode, omode: Mode, mask: Mode, y: char, z: char)
    requires IsOp(a.op) && NoCopy(a.perms) && IsUser(y) && IsRight(z) && BitOf(y, z) != 0
    ensures var now, given := Asked(NONE, a, mode, omode, mask), Gives(a.perms, z, Executable(omode)) && On(mask, y, z);
      On(now, y, z) <==> After(a.op, On(mode, y, z), true, given)
  {
    OnStandard(y, z);
    hide *;
    OnNamed(a.perms, NONE, omode, y, z);
    GivesSetId(a.perms, Executable(omode));
    OnAsked(NONE, a, mode, omode, mask, y, z);
    AfterIs(a.op, On(mode, y, z), true, Gives(a.perms, z, Executable(omode)) && On(mask, y, z));
  }

  lemma OnStandard(y: char, z: char)
    requires IsUser(y) && IsRight(z) && BitOf(y, z) != 0
    ensures On(STANDARD_BITS, y, z) && !(y == 'o' && z == 's')
  {
  }

  /** A copy gives the users the permissions that the user c has in the mode so far. */
  lemma AskedCopy(who: string, op: char, c: char, mode: Mode, omode: Mode, mask: Mode, y: char, z: char)
    requires who != "" && (forall i :: 0 <= i < |who| ==> IsWho(who[i])) && IsOp(op) && IsUser(c) && IsUser(y) && IsRight(z) && z != 's'
    ensures var now := Asked(WhoBits(who), Action(op, [c]), mode, omode, mask);
      On(now, y, z) <==> After(op, On(mode, y, z), Picked(who, y), On(mode, c, z))
  {
    hide *;
    SomeUsers(who);
    OnWho(who, y, z);
    var w := WhoBits(who);
    var to, v := And(w, Mode(0x1FF)), Everywhere(CopyOf(c, mode));
    CopyAsked(w, op, c, mode, omode, mask);
    OnCopy(c, mode, y, z);
    OnNine(y, z);
    OnAnd(w, Mode(0x1FF), y, z);
    OnAnd(v, to, y, z);
    OnOr(mode, And(v, to), y, z);
    OnMinus(mode, And(v, to), y, z);
    OnMinus(mode, to, y, z);
    OnOr(Minus(mode, to), And(v, to), y, z);
    AfterIs(op, On(mode, y, z), Picked(who, y), On(mode, c, z));
  }

  lemma CopyAsked(w: Mode, op: char, c: char, mode: Mode, omode: Mode, mask: Mode)
    requires w != NONE && IsOp(op) && IsUser(c)
    ensures var to, v := And(w, Mode(0x1FF)), Everywhere(CopyOf(c, mode));
      Asked(w, Action(op, [c]), mode, omode, mask) ==
        if op == '+' then Or(mode, And(v, to)) else if op == '-' then Minus(mode, And(v, to)) else Or(Minus(mode, to), And(v, to))
  {
    hide And, Or, Minus, Everywhere, CopyOf;
  }

  lemma OnNine(y: char, z: char)
    requires IsUser(y) && IsRight(z) && z != 's'
    ensures On(Mode(0x1FF), y, z)
  {
  }

  /** The place of a permission among three. */
  function Low(z: char): bv32 {
    if z == 'r' then 4 else if z == 'w' then 2 else 1
  }

  lemma BitOfIs(y: char, z: char)
    requires IsUser(y) && IsRight(z) && z != 's'
    ensures BitOf(y, z) == At(y, Low(z))
  {
  }

  lemma OnCopy(c: char, mode: Mode, y: char, z: char)
    requires IsUser(c) && IsUser(y) && IsRight(z) && z != 's'
    ensures On(Everywhere(CopyOf(c, mode)), y, z) <==> On(mode, c, z)
  {
    hide *;
    LowIs(z);
    CopyIs(c, mode);
    BitOfIs(c, z);
    BitOfIs(y, z);
    var v := CopyOf(c, mode);
    OnIs(mode, c, z);
    OnIs(Everywhere(v), y, z);
    Lowest(mode.b, c, Low(z));
    Place(v.b, y, Low(z));
  }

  lemma LowIs(z: char)
    ensures Low(z) == 1 || Low(z) == 2 || Low(z) == 4
  {
  }

  lemma CopyIs(c: char, mode: Mode)
    requires IsUser(c)
    ensures CopyOf(c, mode).b == Third(c, mode.b)
    ensures var v := CopyOf(c, mode); Everywhere(v).b == Thrice(v.b)
  {
  }

  /** The other bits of a mode, the sticky bit among them, are left alone. */
  lemma AskedElsewhere(who: string, a: Action, mode: Mode, omode: Mode, mask: Mode)
    requires (forall i :: 0 <= i < |who| ==> IsWho(who[i])) && IsOp(a.op) && NoCopy(a.perms)
    ensures Outside(Asked(WhoBits(who), a, mode, omode, mask)) == Outside(mode)
  {
    hide *;
    var w := WhoBits(who);
    var named, within, cleared := Named(a.perms, w, omode), Within(w, mask), if w != NONE then w else STANDARD_BITS;
    NamedWithin(a.perms, w, omode);
    WhoWithin(who);
    NoneOutside();
    OutsideAnd(within, named);
    OutsideOr(mode, And(within, named));
    OutsideOr(mode, cleared);
    OutsideOr(Minus(mode, cleared), And(within, named));
    AskedIs(w, a, mode, omode, mask);
  }

  lemma WithinIs(who: Mode, mask: Mode)
    ensures Within(who, mask) == if who != NONE then who else mask
  {
  }

  lemma AskedIs(w: Mode, a: Action, mode: Mode, omode: Mode, mask: Mode)
    requires IsOp(a.op) && NoCopy(a.perms)
    ensures var bits, cleared := And(Within(w, mask), Named(a.perms, w, omode)), if w != NONE then w else STANDARD_BITS;
      Asked(w, a, mode, omode, mask) == if a.op == '+' then Or(mode, bits) else if a.op == '-' then Minus(mode, bits) else Or(Minus(mode, cleared), bits)
  {
    NotCopyAction(a);
    hide Or, And, Minus, Named, NoCopy, IsCopyAction;
  }

  /** The bits that no symbolic mode is about. */
  function Outside(m: Mode): bv32 {
    Cut(m.b)
  }

  lemma NoneOutside()
    ensures Outside(NONE) == 0 && Outside(STANDARD_BITS) == 0 && Outside(READ) == 0 && Outside(WRITE) == 0 && Outside(EXEC) == 0
    ensures Outside(Or(S_ISUID, S_ISGID)) == 0 && Outside(Or(S_ISUID, S_IRWXU)) == 0 && Outside(Or(S_ISGID, S_IRWXG)) == 0 && Outside(S_IRWXO) == 0
  {
  }

  lemma OutsideOr(m: Mode, n: Mode)
    requires Outside(n) == 0
    ensures Outside(Or(m, n)) == Outside(m) && Outside(Minus(m, n)) == Outside(m)
  {
    hide *;
    OutsideIs(m);
    OutsideIs(n);
    OutsideIs(Or(m, n));
    OutsideIs(Minus(m, n));
    RawOr(m, n);
    RawMinus(m, n);
    OrElsewhere(m.b, n.b);
    MinusElsewhere(m.b, n.b);
  }

  lemma OutsideIs(m: Mode)
    ensures Outside(m) == Cut(m.b)
  {
  }

  lemma OutsideAnd(m: Mode, n: Mode)
    requires Outside(n) == 0
    ensures Outside(And(m, n)) == 0
  {
    AndElsewhere(m.b, n.b);
  }

  lemma {:induction false} NamedWithin(perms: string, w: Mode, omode: Mode)
    ensures Outside(Named(perms, w, omode)) == 0
  {
    NoneOutside();
    hide Outside, Or;
    if perms != "" {
      var c := perms[0];
      NamedWithin(perms[1..], w, omode);
      OutsideOr(if c == 'X' then if MayExecute(omode) then EXEC else NONE else PermBit(c, w), Named(perms[1..], w, omode));
    }
  }

  lemma {:induction false} WhoWithin(who: string)
    ensures Outside(WhoBits(who)) == 0
  {
    NoneOutside();
    hide Outside, Or;
    if who != "" {
      WhoWithin(who[..|who| - 1]);
      OutsideOr(WhoBits(who[..|who| - 1]), WhoBit(who[|who| - 1]));
    }
  }
}
