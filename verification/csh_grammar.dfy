/** src/bin/csh/parse.c: the grammar that the comments in front of the parsing functions give, as a
    relation between trees and ranges of words. */
module CshGrammar {
  import opened CshWords

  datatype CmdFlags = CmdFlags(amp: bool, append: bool, err: bool, overwrite: bool, read: bool, nofork: bool)

  const NOFLAGS := CmdFlags(false, false, false, false, false, false)

  datatype File = NoFile | File(name: Word)

  /** struct command, or no command */
  datatype Command =
    | Null
    | Simple(args: seq<Word>, lef: File, rit: File, flags: CmdFlags)
    | Paren(sub: Command, lef: File, rit: File, flags: CmdFlags)
    | Pipe(car: Command, cdr: Command, flags: CmdFlags)
    | List(car: Command, cdr: Command, flags: CmdFlags)
    | Or(car: Command, cdr: Command, flags: CmdFlags)
    | And(car: Command, cdr: Command, flags: CmdFlags)

  /** What the levels above tell syn3: PHERE, PIN, POUT and PERR. */
  datatype Context = Context(here: bool, pin: bool, pout: bool, perr: bool)

  const TOP := Context(false, false, false, false)
  const HERE := Context(true, false, false, false)

  // What a command without operators is made of

  /** An argument; n words from index from on that are in parentheses; a redirection of the output,
      with >> (append), with & (err) and with ! (force); a redirection of the input, with << (read). */
  datatype Item =
    | Arg(word: Word)
    | Block(from: nat, n: nat)
    | Out(append: bool, err: bool, force: bool, name: Word)
    | In(read: bool, name: Word)

  /** How many words an item is. */
  function Len(it: Item): nat {
    match it
    case Arg(_) => 1
    case Block(_, n) => n
    case Out(_, err, force, _) => 2 + (if err then 1 else 0) + (if force then 1 else 0)
    case In(_, _) => 2
  }

  /** The opening parenthesis at p has its partner n - 1 words on. */
  ghost predicate IsBlock(ws: seq<Word>, p: nat, n: nat)
    requires p + n <= |ws|
  {
    n > 0 && First(ws[p]) == '(' && Level(ws, p, p + n) == 0 && forall k :: p < k < p + n ==> Level(ws, p, k) > 0
  }

  predicate Second(w: Word, c: char) {
    |w| > 1 && w[1] == c
  }

  /** The words from p on are those of the item. */
  ghost predicate ItemAt(it: Item, ws: seq<Word>, p: nat)
    requires p + Len(it) <= |ws|
  {
    match it
    case Arg(w) => ws[p] == w && Ordinary(w)
    case Block(from, n) => from == p && IsBlock(ws, p, n)
    case Out(append, err, force, name) =>
      && First(ws[p]) == '>' && append == Second(ws[p], '>') && (err ==> ws[p + 1] == "&")
      && (force ==> ws[p + Len(it) - 2] == "!") && ws[p + Len(it) - 1] == name && Ordinary(name) && (!force ==> name != "!")
    case In(read, name) =>
      First(ws[p]) == '<' && read == Second(ws[p], '<') && ws[p + 1] == name && Ordinary(name)
  }

  /** The words from i to j are those of the items, one after the other. */
  ghost predicate Spelled(items: seq<Item>, ws: seq<Word>, i: nat, j: nat)
    requires j <= |ws|
  {
    if items == [] then i == j
    else
      var it := items[|items| - 1];
      i + Len(it) <= j && ItemAt(it, ws, j - Len(it)) && Spelled(items[..|items| - 1], ws, i, j - Len(it))
  }

  function Ins(items: seq<Item>): (r: seq<Item>)
    ensures forall it :: it in r ==> it.In?
  {
    if items == [] then [] else Ins(items[..|items| - 1]) + if items[|items| - 1].In? then [items[|items| - 1]] else []
  }

  function Outs(items: seq<Item>): (r: seq<Item>)
    ensures forall it :: it in r ==> it.Out?
  {
    if items == [] then [] else Outs(items[..|items| - 1]) + if items[|items| - 1].Out? then [items[|items| - 1]] else []
  }

  function Blocks(items: seq<Item>): (r: seq<Item>)
    ensures forall it :: it in r ==> it.Block?
  {
    if items == [] then [] else Blocks(items[..|items| - 1]) + if items[|items| - 1].Block? then [items[|items| - 1]] else []
  }

  /** The arguments; after a keyword, what is in parentheses belongs to them, with the parentheses. */
  function ArgWords(items: seq<Item>, ws: seq<Word>, specp: bool): seq<Word> {
    if items == [] then []
    else
      var it := items[|items| - 1];
      ArgWords(items[..|items| - 1], ws, specp) +
        match it
        case Arg(w) => [w]
        case Block(from, n) => if specp && from + n <= |ws| then ws[from..from + n] else []
        case _ => []
  }

  /** The redirections fit into the context: in a pipe the ends that it takes are not redirected, at
      most one input is given, no << within parentheses; and there is one group at most. */
  ghost predicate Fits(items: seq<Item>, fl: Context, specp: bool) {
    && (Ins(items) != [] ==> !fl.pin && |Ins(items)| == 1 && !(fl.here && Ins(items)[0].read))
    && (fl.pout && Outs(items) != [] ==> fl.perr && |Outs(items)| == 1)
    && (fl.pout || fl.perr ==> forall it {:trigger it.err} :: it in Outs(items) ==> !it.err)
    && (!specp ==> |Blocks(items)| <= 1)
  }

  /** The input comes from the one file given; the output goes to the last. */
  function LastName(items: seq<Item>): File
    requires forall it :: it in items ==> it.Out? || it.In?
  {
    if items == [] then NoFile else File(items[|items| - 1].name)
  }

  ghost function FlagsOf(items: seq<Item>, nofork: bool): CmdFlags {
    CmdFlags(false,
      exists it :: it in Outs(items) && it.append, exists it :: it in Outs(items) && it.err,
      exists it :: it in Outs(items) && it.force, exists it :: it in Ins(items) && it.read, nofork)
  }

  /** A range in front of a closing parenthesis. */
  predicate IsLast(ws: seq<Word>, j: nat) {
    j < |ws| && First(ws[j]) == ')'
  }

  // The grammar

  ghost function MadeOf(items: seq<Item>, ws: seq<Word>, i: nat, j: nat): (t: Command)
    requires i <= j <= |ws|
    ensures t.Simple?
  {
    Simple(ArgWords(items, ws, SpecialFrom(ws, i, j)), LastName(Ins(items)), LastName(Outs(items)), FlagsOf(items, IsLast(ws, j)))
  }

  /** What syn3 makes of the items: a command with its words, or one group. */
  ghost predicate LeafOf(t: Command, items: seq<Item>, ws: seq<Word>, i: nat, j: nat, fl: Context)
    requires i <= j <= |ws|
    decreases j - i, 0, 0
  {
    Fits(items, fl, SpecialFrom(ws, i, j)) &&
    if SpecialFrom(ws, i, j) || Blocks(items) == [] then
      t == MadeOf(items, ws, i, j) && t.args != []
    else
      var b := Blocks(items)[0];
      && ArgWords(items, ws, false) == [] && t.Paren?
      && t == Paren(t.sub, LastName(Ins(items)), LastName(Outs(items)), FlagsOf(items, IsLast(ws, j)))
      && i <= b.from && b.n >= 2 && b.from + b.n <= j && OfSyn0(t.sub, ws, b.from + 1, b.from + b.n - 1, HERE)
  }

  /** syn3: words and redirections, after a keyword with parentheses among them; or a group and
      redirections. */
  ghost predicate OfSyn3(t: Command, ws: seq<Word>, i: nat, j: nat, fl: Context)
    requires i <= j <= |ws|
    decreases j - i, 0, 1
  {
    exists items :: Spelled(items, ws, i, j) && LeafOf(t, items, ws, i, j, fl)
  }

  predicate IsBar(w: Word) {
    First(w) == '|' && !IsOrOr(w)
  }

  /** syn3 | syn2, and syn3 |& syn2, with the bar at p. */
  ghost predicate PipeAt(t: Command, ws: seq<Word>, i: nat, p: nat, j: nat, fl: Context)
    requires i <= p < j <= |ws|
    decreases j - i, 1
  {
    && t.Pipe? && t.flags == NOFLAGS.(err := t.flags.err) && IsBar(ws[p]) && OfSyn3(t.car, ws, i, p, fl.(pout := true, perr := fl.perr || t.flags.err))
    && if t.flags.err then p + 2 <= j && ws[p + 1] == "&" && OfSyn2(t.cdr, ws, p + 2, j, fl.(pin := true))
       else OfSyn2(t.cdr, ws, p + 1, j, fl.(pin := true))
  }

  ghost predicate OfSyn2(t: Command, ws: seq<Word>, i: nat, j: nat, fl: Context)
    requires i <= j <= |ws|
    decreases j - i, 2
  {
    OfSyn3(t, ws, i, j, fl) || exists p :: i <= p < j && PipeAt(t, ws, i, p, j, fl)
  }

  /** syn2 && syn1b */
  ghost predicate AndAt(t: Command, ws: seq<Word>, i: nat, p: nat, j: nat, fl: Context)
    requires i <= p < j <= |ws|
    decreases j - i, 3
  {
    t.And? && t.flags == NOFLAGS && IsAndAnd(ws[p]) && OfSyn2(t.car, ws, i, p, fl) && OfSyn1b(t.cdr, ws, p + 1, j, fl)
  }

  ghost predicate OfSyn1b(t: Command, ws: seq<Word>, i: nat, j: nat, fl: Context)
    requires i <= j <= |ws|
    decreases j - i, 4
  {
    OfSyn2(t, ws, i, j, fl) || exists p :: i <= p < j && AndAt(t, ws, i, p, j, fl)
  }

  /** syn1b || syn1a */
  ghost predicate OrAt(t: Command, ws: seq<Word>, i: nat, p: nat, j: nat, fl: Context)
    requires i <= p < j <= |ws|
    decreases j - i, 5
  {
    t.Or? && t.flags == NOFLAGS && IsOrOr(ws[p]) && OfSyn1b(t.car, ws, i, p, fl) && OfSyn1a(t.cdr, ws, p + 1, j, fl)
  }

  ghost predicate OfSyn1a(t: Command, ws: seq<Word>, i: nat, j: nat, fl: Context)
    requires i <= j <= |ws|
    decreases j - i, 6
  {
    OfSyn1b(t, ws, i, j, fl) || exists p :: i <= p < j && OrAt(t, ws, i, p, j, fl)
  }

  predicate IsSemi(w: Word) {
    First(w) == ';' || First(w) == '\n'
  }

  /** What puts the command in front of it into the background. */
  predicate IsBack(w: Word) {
    First(w) == '&' && !IsAndAnd(w)
  }

  /** syn1a ; syntax. When nothing follows, the left side is empty and the command is on the right. */
  ghost predicate ListAt(t: Command, ws: seq<Word>, i: nat, p: nat, j: nat, fl: Context)
    requires i <= p < j <= |ws|
    decreases j - i, 7
  {
    && t.List? && t.flags == NOFLAGS && IsSemi(ws[p])
    && if t.car.Null? then OfSyn1a(t.cdr, ws, i, p, fl) && OfRest(Null, ws, p + 1, j, fl)
       else OfSyn1a(t.car, ws, i, p, fl) && OfRest(t.cdr, ws, p + 1, j, fl) && !t.cdr.Null?
  }

  ghost predicate OfSyn1(t: Command, ws: seq<Word>, i: nat, j: nat, fl: Context)
    requires i <= j <= |ws|
    decreases j - i, 8
  {
    OfSyn1a(t, ws, i, j, fl) || exists p :: i <= p < j && ListAt(t, ws, i, p, j, fl)
  }

  /** What follows a ; up to the & that puts it all into the background, or up to the end. */
  ghost predicate OfRest(t: Command, ws: seq<Word>, i: nat, j: nat, fl: Context)
    requires i <= j <= |ws|
    decreases j - i, 9
  {
    if i == j then t.Null?
    else if IsSep(ws[i]) then !IsBack(ws[i]) && OfRest(t, ws, i + 1, j, fl)
    else OfSyn1(t, ws, i, j, fl)
  }

  /** The same command, in the background. */
  function WithAmp(t: Command): Command {
    match t
    case Null => Null
    case Simple(args, lef, rit, f) => Simple(args, lef, rit, f.(amp := true))
    case Paren(sub, lef, rit, f) => Paren(sub, lef, rit, f.(amp := true))
    case Pipe(car, cdr, f) => Pipe(car, cdr, f.(amp := true))
    case List(car, cdr, f) => List(car, cdr, f.(amp := true))
    case Or(car, cdr, f) => Or(car, cdr, f.(amp := true))
    case And(car, cdr, f) => And(car, cdr, f.(amp := true))
  }

  function InBackground(t: Command): Command {
    if t.List? || t.And? || t.Or? then Paren(t, NoFile, NoFile, NOFLAGS.(amp := true)) else WithAmp(t)
  }

  /** syn1 & syntax */
  ghost predicate BackAt(t: Command, ws: seq<Word>, i: nat, p: nat, j: nat, fl: Context)
    requires i <= p < j <= |ws|
    decreases j - i, 10
  {
    && t.List? && t.flags == NOFLAGS && IsBack(ws[p]) && OfSyntax(t.cdr, ws, p + 1, j, fl)
    && exists t1 :: OfSyn1(t1, ws, i, p, fl) && t.car == InBackground(t1)
  }

  ghost predicate OfSyn0(t: Command, ws: seq<Word>, i: nat, j: nat, fl: Context)
    requires i <= j <= |ws|
    decreases j - i, 11
  {
    OfSyn1(t, ws, i, j, fl) || exists p :: i <= p < j && BackAt(t, ws, i, p, j, fl)
  }

  /** syntax: nothing, or syn0, after any number of separators */
  ghost predicate OfSyntax(t: Command, ws: seq<Word>, i: nat, j: nat, fl: Context)
    requires i <= j <= |ws|
    decreases j - i, 12
  {
    if i == j then t.Null? else if IsSep(ws[i]) then OfSyntax(t, ws, i + 1, j, fl) else OfSyn0(t, ws, i, j, fl)
  }

  // The shape of the trees

  predicate IsCommand(t: Command)
    decreases t, 0
  {
    (t.Simple? && t.args != []) || (t.Paren? && IsLine(t.sub))
  }

  predicate IsPipe(t: Command)
    decreases t, 1
  {
    IsCommand(t) || (t.Pipe? && IsCommand(t.car) && IsPipe(t.cdr))
  }

  predicate IsAnd(t: Command)
    decreases t, 2
  {
    IsPipe(t) || (t.And? && IsPipe(t.car) && IsAnd(t.cdr))
  }

  predicate IsOr(t: Command)
    decreases t, 3
  {
    IsAnd(t) || (t.Or? && IsAnd(t.car) && IsOr(t.cdr))
  }

  /** What stands before a ; or makes up the rest; of a list with nothing after the last ; only the
      right side is there. */
  predicate IsList(t: Command)
    decreases t, 4
  {
    IsOr(t) || (t.List? && ((t.car.Null? && IsOr(t.cdr)) || (IsOr(t.car) && IsLine(t.cdr))))
  }

  /** A line; what runs in the background is a single pipe or a node with parentheses. */
  predicate IsLine(t: Command)
    decreases t, 5
  {
    IsList(t) || (t.List? && !t.car.Null? && t.car.flags.amp && IsPipe(t.car) && (t.cdr.Null? || IsLine(t.cdr)))
  }

  /** The words of the leaves, from left to right. */
  function Words(t: Command): seq<Word> {
    match t
    case Null => []
    case Simple(args, _, _, _) => args
    case Paren(sub, _, _, _) => Words(sub)
    case Pipe(car, cdr, _) => Words(car) + Words(cdr)
    case List(car, cdr, _) => Words(car) + Words(cdr)
    case Or(car, cdr, _) => Words(car) + Words(cdr)
    case And(car, cdr, _) => Words(car) + Words(cdr)
  }

  lemma AmpIsPipe(t: Command)
    requires IsPipe(t)
    ensures !t.Null? && IsPipe(WithAmp(t)) && Words(WithAmp(t)) == Words(t)
  {
  }

  /** A list that is not one node of its kind is a pipe. */
  lemma OnlyPipe(t: Command)
    requires IsList(t) && !t.List? && !t.And? && !t.Or?
    ensures IsPipe(t)
  {
    assert IsOr(t) && IsAnd(t);
  }

  /** A list that is put into the background. */
  lemma BackIsPipe(t: Command)
    requires IsList(t)
    ensures var b := InBackground(t); !b.Null? && b.flags.amp && IsPipe(b) && Words(b) == Words(t)
  {
    if t.List? || t.And? || t.Or? {
      assert IsLine(t);
      assert IsCommand(InBackground(t));
    } else {
      OnlyPipe(t);
      AmpIsPipe(t);
    }
  }
}
