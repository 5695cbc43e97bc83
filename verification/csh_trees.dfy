/** src/bin/csh/parse.c: what a tree says of the words of its line, node by node. */
module CshTrees {
  import opened CshWords
  import opened CshGrammar
  import opened CshReads
  import opened CshLeaves

  // What a tree may hold

  /** The ends of one command: behind and in front of a bar (with |& or not), and within parentheses.
      Options come with a file. */
  predicate EndsApart(lef: File, rit: File, f: CmdFlags, behind: bool, front: bool, err: bool, inside: bool) {
    && (behind ==> lef == NoFile) && (front && !err ==> rit == NoFile) && (front ==> !f.err) && (inside ==> !f.read)
    && (lef == NoFile ==> !f.read) && (rit == NoFile ==> !f.append && !f.err && !f.overwrite)
  }

  /** No command behind a bar is given an input, none in front of a bar an output, but with |&, and
      none in parentheses reads with <<. What runs in the background has a node like that of
      parentheses without any being there, so this does not count. */
  predicate Apart(t: Command, behind: bool, front: bool, err: bool, inside: bool) {
    match t
    case Null => true
    case Simple(_, lef, rit, f) => EndsApart(lef, rit, f, behind, front, err, inside)
    case Paren(sub, lef, rit, f) => EndsApart(lef, rit, f, behind, front, err, inside) && Apart(sub, false, false, false, inside || !f.amp)
    case Pipe(car, cdr, f) => Apart(car, behind, true, f.err, inside) && Apart(cdr, true, front, err, inside)
    case List(car, cdr, _) => Apart(car, false, false, false, inside) && Apart(cdr, false, false, false, inside)
    case Or(car, cdr, _) => Apart(car, false, false, false, inside) && Apart(cdr, false, false, false, inside)
    case And(car, cdr, _) => Apart(car, false, false, false, inside) && Apart(cdr, false, false, false, inside)
  }

  predicate Quiet(t: Command) {
    !t.Null? ==> !t.flags.amp
  }

  /** Only the left side of a list runs in the background, and only a pipe has err. */
  predicate Marks(t: Command) {
    match t
    case Null => true
    case Simple(_, _, _, _) => true
    case Paren(sub, _, _, _) => Quiet(sub) && Marks(sub)
    case Pipe(car, cdr, f) => f == NOFLAGS.(amp := f.amp, err := f.err) && Quiet(car) && Marks(car) && Quiet(cdr) && Marks(cdr)
    case List(car, cdr, f) => f == NOFLAGS.(amp := f.amp) && Marks(car) && Quiet(cdr) && Marks(cdr)
    case Or(car, cdr, f) => f == NOFLAGS.(amp := f.amp) && Quiet(car) && Marks(car) && Quiet(cdr) && Marks(cdr)
    case And(car, cdr, f) => f == NOFLAGS.(amp := f.amp) && Quiet(car) && Marks(car) && Quiet(cdr) && Marks(cdr)
  }

  // Where the words of a tree are

  /** Separators only. */
  ghost predicate Seps(ws: seq<Word>, p: nat, q: nat)
    requires q <= |ws|
  {
    forall k :: p <= k < q ==> IsSep(ws[k])
  }

  predicate IsNode(t: Command) {
    t.List? || t.And? || t.Or?
  }

  /** Each node is a range of words: a command has all its arguments, redirections and options from
      its own range, a group is in its parentheses, and a node of another kind has its operator between
      its two sides. */
  ghost predicate Placed(t: Command, ws: seq<Word>, i: nat, j: nat)
    requires i <= j <= |ws|
    decreases t, 1
  {
    match t
    case Null => i == j
    case Simple(args, _, _, _) => Tidy(ws, i, j) && Redirected(t, ws, i, j) && args == Args(ws, i, j, START) && args != []
    case Paren(sub, lef, rit, f) =>
      || (Tidy(ws, i, j) && Redirected(t, ws, i, j) && exists a: nat, b: nat :: i <= a < b < j && GroupAt(ws, i, j, a, b) && Placed(sub, ws, a + 1, b))
      || (IsNode(sub) && lef == rit == NoFile && f == NOFLAGS.(amp := true) && Placed(sub, ws, i, j))
    case List(_, _, _) => exists p: nat, q: nat :: i <= p < q <= j && PartsAt(t, ws, i, p, q, j)
    case _ => exists p: nat, q: nat :: i <= p < q <= j && SidesAt(t, ws, i, p, q, j)
  }

  /** The operator at p, and the right side from q on. */
  ghost predicate SidesAt(t: Command, ws: seq<Word>, i: nat, p: nat, q: nat, j: nat)
    requires i <= p < q <= j <= |ws| && (t.Pipe? || t.Or? || t.And?)
    decreases t, 0
  {
    && Placed(t.car, ws, i, p) && Placed(t.cdr, ws, q, j)
    && match t
       case Pipe(_, _, f) => IsBar(ws[p]) && if f.err then q == p + 2 && ws[p + 1] == "&" else q == p + 1
       case Or(_, _, _) => IsOrOr(ws[p]) && q == p + 1
       case And(_, _, _) => IsAndAnd(ws[p]) && q == p + 1
  }

  /** The separator at p, more of them up to q, and the rest, if there is one. */
  ghost predicate PartsAt(t: Command, ws: seq<Word>, i: nat, p: nat, q: nat, j: nat)
    requires i <= p < q <= j <= |ws| && t.List?
    decreases t, 0
  {
    && Seps(ws, p + 1, q)
    && if t.car.Null? then IsSemi(ws[p]) && Placed(t.cdr, ws, i, p) && q == j
       else (if t.car.flags.amp then IsBack(ws[p]) else IsSemi(ws[p])) && Placed(t.car, ws, i, p) && Placed(t.cdr, ws, q, j)
  }

  // What the grammar derives

  /** Neither behind nor in front of a bar. */
  predicate Open(fl: Context) {
    !fl.pin && !fl.pout && !fl.perr
  }

  /** A tree, its range and what the levels above have told. */
  ghost predicate Good(t: Command, ws: seq<Word>, i: nat, j: nat, fl: Context)
    requires i <= j <= |ws|
  {
    Placed(t, ws, i, j) && Apart(t, fl.pin, fl.pout, fl.perr, fl.here) && Marks(t)
  }

  lemma GoodSays(t: Command, ws: seq<Word>, i: nat, j: nat, fl: Context)
    requires i <= j <= |ws|
    ensures Good(t, ws, i, j, fl) <==> Placed(t, ws, i, j) && Apart(t, fl.pin, fl.pout, fl.perr, fl.here) && Marks(t)
  {
  }

  lemma {:induction false} ApartLess(t: Command, b: bool, f: bool, e: bool, n: bool, n': bool)
    requires Apart(t, b, f, e, n) && (n' ==> n)
    ensures Apart(t, b, f, e, n')
  {
    match t
    case Null =>
    case Simple(_, _, _, _) =>
    case Paren(sub, _, _, fl) => ApartLess(sub, false, false, false, n || !fl.amp, n' || !fl.amp);
    case Pipe(car, cdr, fl) =>
      ApartLess(car, b, true, fl.err, n, n');
      ApartLess(cdr, true, f, e, n, n');
    case List(car, cdr, _) =>
      ApartLess(car, false, false, false, n, n');
      ApartLess(cdr, false, false, false, n, n');
    case Or(car, cdr, _) =>
      ApartLess(car, false, false, false, n, n');
      ApartLess(cdr, false, false, false, n, n');
    case And(car, cdr, _) =>
      ApartLess(car, false, false, false, n, n');
      ApartLess(cdr, false, false, false, n, n');
  }

  lemma EndsGood(t: Command, ws: seq<Word>, i: nat, j: nat, fl: Context)
    requires i <= j <= |ws| && Redirected(t, ws, i, j) && Suits(ws, i, j, fl, SpecialFrom(ws, i, j))
    ensures EndsApart(t.lef, t.rit, t.flags, fl.pin, fl.pout, fl.perr, fl.here)
  {
    hide At, NameOf, Tidy, SpecialFrom, Once;
    if Some(ws, i, j, '>') {
      var k := LastOf(ws, i, j, '>');
    }
  }

  lemma SimpleGood(t: Command, ws: seq<Word>, i: nat, j: nat, fl: Context)
    requires i <= j <= |ws| && t.Simple? && Redirected(t, ws, i, j) && Suits(ws, i, j, fl, SpecialFrom(ws, i, j))
    requires Tidy(ws, i, j) && t.args == Args(ws, i, j, START) && t.args != [] && !t.flags.amp
    ensures Good(t, ws, i, j, fl) && Quiet(t)
  {
    EndsGood(t, ws, i, j, fl);
    hide Redirected, Suits, Tidy, EndsApart;
  }

  lemma GroupGood(t: Command, ws: seq<Word>, i: nat, j: nat, a: nat, b: nat, fl: Context)
    requires i <= a < b < j <= |ws| && t.Paren? && Redirected(t, ws, i, j) && Suits(ws, i, j, fl, SpecialFrom(ws, i, j))
    requires Tidy(ws, i, j) && !t.flags.amp && GroupAt(ws, i, j, a, b) && Good(t.sub, ws, a + 1, b, HERE) && Quiet(t.sub)
    ensures Good(t, ws, i, j, fl) && Quiet(t)
  {
    EndsGood(t, ws, i, j, fl);
    hide Redirected, Suits, Tidy, EndsApart, GroupAt;
  }

  lemma HereIsOpen()
    ensures Open(HERE)
  {
  }

  lemma Good3(t: Command, ws: seq<Word>, i: nat, j: nat, fl: Context)
    requires i <= j <= |ws| && OfSyn3(t, ws, i, j, fl)
    ensures Good(t, ws, i, j, fl) && Quiet(t)
    decreases j - i, 0
  {
    hide *;
    Syn3ByWords(t, ws, i, j, fl);
    LeafBySays(t, ws, i, j, fl);
    if t.Simple? {
      SimpleGood(t, ws, i, j, fl);
    } else {
      var a: nat, b: nat :| i <= a < b < j && GroupAt(ws, i, j, a, b) && OfSyn0(t.sub, ws, a + 1, b, HERE);
      HereIsOpen();
      Good0(t.sub, ws, a + 1, b, HERE);
      GroupGood(t, ws, i, j, a, b, fl);
    }
  }

  lemma PipeGood(t: Command, ws: seq<Word>, i: nat, p: nat, q: nat, j: nat, fl: Context)
    requires i <= p < q <= j <= |ws| && t.Pipe? && t.flags == NOFLAGS.(err := t.flags.err) && IsBar(ws[p])
    requires !fl.perr && q == (if t.flags.err then p + 2 else p + 1) && (t.flags.err ==> ws[p + 1] == "&")
    requires Good(t.car, ws, i, p, fl.(pout := true, perr := t.flags.err)) && Quiet(t.car)
    requires Good(t.cdr, ws, q, j, fl.(pin := true)) && Quiet(t.cdr)
    ensures Good(t, ws, i, j, fl) && Quiet(t)
  {
    PlacedPipe(t, ws, i, p, q, j);
    hide IsBar, Placed;
  }

  lemma PlacedPipe(t: Command, ws: seq<Word>, i: nat, p: nat, q: nat, j: nat)
    requires i <= p < q <= j <= |ws| && t.Pipe? && IsBar(ws[p]) && Placed(t.car, ws, i, p) && Placed(t.cdr, ws, q, j)
    requires q == (if t.flags.err then p + 2 else p + 1) && (t.flags.err ==> ws[p + 1] == "&")
    ensures Placed(t, ws, i, j)
  {
    assert SidesAt(t, ws, i, p, q, j);
  }

  lemma Good2(t: Command, ws: seq<Word>, i: nat, j: nat, fl: Context)
    requires i <= j <= |ws| && OfSyn2(t, ws, i, j, fl) && !fl.perr
    ensures Good(t, ws, i, j, fl) && Quiet(t)
    decreases j - i, 1
  {
    if OfSyn3(t, ws, i, j, fl) {
      Good3(t, ws, i, j, fl);
    } else {
      var p :| i <= p < j && PipeAt(t, ws, i, p, j, fl);
      hide *;
      PipeSays(t, ws, i, p, j, fl);
      var q := if t.flags.err then p + 2 else p + 1;
      Good3(t.car, ws, i, p, fl.(pout := true, perr := t.flags.err));
      Good2(t.cdr, ws, q, j, fl.(pin := true));
      PipeGood(t, ws, i, p, q, j, fl);
    }
  }

  lemma AndGood(t: Command, ws: seq<Word>, i: nat, p: nat, j: nat, fl: Context)
    requires i <= p < j <= |ws| && ((t.And? && IsAndAnd(ws[p])) || (t.Or? && IsOrOr(ws[p]))) && t.flags == NOFLAGS
    requires Open(fl) && Good(t.car, ws, i, p, fl) && Quiet(t.car) && Good(t.cdr, ws, p + 1, j, fl) && Quiet(t.cdr)
    ensures Good(t, ws, i, j, fl) && Quiet(t)
  {
    PlacedSides(t, ws, i, p, j);
    hide IsAndAnd, IsOrOr, Placed;
  }

  lemma PlacedSides(t: Command, ws: seq<Word>, i: nat, p: nat, j: nat)
    requires i <= p < j <= |ws| && ((t.And? && IsAndAnd(ws[p])) || (t.Or? && IsOrOr(ws[p]))) && Placed(t.car, ws, i, p) && Placed(t.cdr, ws, p + 1, j)
    ensures Placed(t, ws, i, j)
  {
    assert SidesAt(t, ws, i, p, p + 1, j);
  }

  lemma Good1b(t: Command, ws: seq<Word>, i: nat, j: nat, fl: Context)
    requires i <= j <= |ws| && OfSyn1b(t, ws, i, j, fl) && Open(fl)
    ensures Good(t, ws, i, j, fl) && Quiet(t)
    decreases j - i, 2
  {
    if OfSyn2(t, ws, i, j, fl) {
      Good2(t, ws, i, j, fl);
    } else {
      var p :| i <= p < j && AndAt(t, ws, i, p, j, fl);
      hide *;
      AndSays(t, ws, i, p, j, fl);
      Good2(t.car, ws, i, p, fl);
      Good1b(t.cdr, ws, p + 1, j, fl);
      AndGood(t, ws, i, p, j, fl);
    }
  }

  lemma Good1a(t: Command, ws: seq<Word>, i: nat, j: nat, fl: Context)
    requires i <= j <= |ws| && OfSyn1a(t, ws, i, j, fl) && Open(fl)
    ensures Good(t, ws, i, j, fl) && Quiet(t)
    decreases j - i, 3
  {
    if OfSyn1b(t, ws, i, j, fl) {
      Good1b(t, ws, i, j, fl);
    } else {
      var p :| i <= p < j && OrAt(t, ws, i, p, j, fl);
      hide *;
      OrSays(t, ws, i, p, j, fl);
      Good1b(t.car, ws, i, p, fl);
      Good1a(t.cdr, ws, p + 1, j, fl);
      AndGood(t, ws, i, p, j, fl);
    }
  }

  /** What comes after a separator: more of them, and then a list, or nothing. */
  ghost predicate GoodRest(t: Command, ws: seq<Word>, i: nat, j: nat, fl: Context)
    requires i <= j <= |ws|
  {
    Quiet(t) && exists q :: i <= q <= j && Seps(ws, i, q) && Good(t, ws, q, j, fl)
  }

  lemma RestHere(t: Command, ws: seq<Word>, i: nat, j: nat, fl: Context)
    requires i <= j <= |ws| && (Good(t, ws, i, j, fl) || (i == j && t.Null?)) && Quiet(t)
    ensures GoodRest(t, ws, i, j, fl)
  {
    hide IsSep;
    assert Seps(ws, i, i) && Good(t, ws, i, j, fl);
  }

  lemma RestMore(t: Command, ws: seq<Word>, i: nat, j: nat, fl: Context)
    requires i < j <= |ws| && IsSep(ws[i]) && GoodRest(t, ws, i + 1, j, fl)
    ensures GoodRest(t, ws, i, j, fl)
  {
    hide Good, IsSep;
    var q :| i + 1 <= q <= j && Seps(ws, i + 1, q) && Good(t, ws, q, j, fl);
    assert Seps(ws, i, q);
  }

  lemma ListGood(t: Command, ws: seq<Word>, i: nat, p: nat, j: nat, fl: Context)
    requires i <= p < j <= |ws| && t.List? && t.flags == NOFLAGS && GoodRest(Behind(t), ws, p + 1, j, fl)
    requires Good(Front(t), ws, i, p, fl) && !Front(t).Null? && (if Front(t).flags.amp then !t.car.Null? && IsBack(ws[p]) else IsSemi(ws[p]))
    requires Open(fl) && (t.car.Null? ==> Quiet(t.cdr))
    ensures Good(t, ws, i, j, fl) && Quiet(t)
  {
    hide IsSep, IsBack, IsSemi;
    var q :| p + 1 <= q <= j && Seps(ws, p + 1, q) && Good(Behind(t), ws, q, j, fl);
    GoodSays(Behind(t), ws, q, j, fl);
    GoodSays(Front(t), ws, i, p, fl);
    PlacedList(t, ws, i, p, q, j);
    GoodSays(t, ws, i, j, fl);
    hide Seps, Placed, Good;
  }

  lemma PlacedList(t: Command, ws: seq<Word>, i: nat, p: nat, q: nat, j: nat)
    requires i <= p < q <= j <= |ws| && t.List? && Seps(ws, p + 1, q) && Placed(Front(t), ws, i, p) && Placed(Behind(t), ws, q, j)
    requires !Front(t).Null? && (if Front(t).flags.amp then !t.car.Null? && IsBack(ws[p]) else IsSemi(ws[p]))
    ensures Placed(t, ws, i, j)
  {
    assert PartsAt(t, ws, i, p, q, j);
  }

  lemma Good1(t: Command, ws: seq<Word>, i: nat, j: nat, fl: Context)
    requires i <= j <= |ws| && OfSyn1(t, ws, i, j, fl) && Open(fl)
    ensures Good(t, ws, i, j, fl) && Quiet(t)
    decreases j - i, 4
  {
    if OfSyn1a(t, ws, i, j, fl) {
      Good1a(t, ws, i, j, fl);
    } else {
      var p :| i <= p < j && ListAt(t, ws, i, p, j, fl);
      ListSays(t, ws, i, p, j, fl);
      hide *;
      Good1a(Front(t), ws, i, p, fl);
      GoodAfter(Behind(t), ws, p + 1, j, fl);
      NotNull1a(Front(t), ws, i, p, fl);
      ListGood(t, ws, i, p, j, fl);
    }
  }

  lemma NotNull1a(t: Command, ws: seq<Word>, i: nat, j: nat, fl: Context)
    requires i <= j <= |ws| && OfSyn1a(t, ws, i, j, fl) && Quiet(t)
    ensures !t.Null? && !t.flags.amp
  {
    Sound1a(t, ws, i, j, fl);
  }

  lemma GoodAfter(t: Command, ws: seq<Word>, i: nat, j: nat, fl: Context)
    requires i <= j <= |ws| && OfRest(t, ws, i, j, fl) && Open(fl)
    ensures GoodRest(t, ws, i, j, fl)
    decreases j - i, 5
  {
    if i == j {
      RestHere(t, ws, i, j, fl);
    } else if IsSep(ws[i]) {
      GoodAfter(t, ws, i + 1, j, fl);
      RestMore(t, ws, i, j, fl);
    } else {
      Good1(t, ws, i, j, fl);
      RestHere(t, ws, i, j, fl);
    }
  }

  lemma AmpGood(t: Command, ws: seq<Word>, i: nat, j: nat, fl: Context)
    requires i <= j <= |ws| && Good(t, ws, i, j, fl) && !t.Null? && !IsNode(t)
    ensures Good(WithAmp(t), ws, i, j, fl)
  {
    hide *;
    GoodSays(t, ws, i, j, fl);
    AmpPlaced(t, ws, i, j);
    AmpApart(t, fl);
    AmpMarks(t);
    GoodSays(WithAmp(t), ws, i, j, fl);
  }

  lemma AmpPlaced(t: Command, ws: seq<Word>, i: nat, j: nat)
    requires i <= j <= |ws| && Placed(t, ws, i, j) && !t.Null? && !IsNode(t)
    ensures Placed(WithAmp(t), ws, i, j)
  {
    if t.Simple? || t.Paren? {
      AmpRedirected(t, ws, i, j);
      hide Tidy, Redirected, GroupAt, Args;
    } else if t.Pipe? {
      var p: nat, q: nat :| i <= p < q <= j && SidesAt(t, ws, i, p, q, j);
      assert SidesAt(WithAmp(t), ws, i, p, q, j);
    }
  }

  lemma AmpRedirected(t: Command, ws: seq<Word>, i: nat, j: nat)
    requires j <= |ws| && (t.Simple? || t.Paren?)
    ensures Redirected(WithAmp(t), ws, i, j) <==> Redirected(t, ws, i, j)
  {
    hide LefSaid, RitSaid, Appends, Errs, Forces, Heres;
  }

  lemma AmpApart(t: Command, fl: Context)
    requires Apart(t, fl.pin, fl.pout, fl.perr, fl.here) && !IsNode(t)
    ensures Apart(WithAmp(t), fl.pin, fl.pout, fl.perr, fl.here)
  {
    if t.Paren? {
      ApartLess(t.sub, false, false, false, fl.here || !t.flags.amp, fl.here);
    }
  }

  lemma AmpMarks(t: Command)
    requires Marks(t)
    ensures Marks(WithAmp(t))
  {
  }

  lemma NodeGood(t: Command, ws: seq<Word>, i: nat, j: nat, fl: Context)
    requires i <= j <= |ws| && Good(t, ws, i, j, fl) && IsNode(t) && Quiet(t) && Open(fl)
    ensures Good(CshGrammar.Paren(t, NoFile, NoFile, NOFLAGS.(amp := true)), ws, i, j, fl)
  {
    ApartIs(t, fl);
    hide Tidy, Redirected, GroupAt, Apart, Placed, Marks;
    GoodSays(t, ws, i, j, fl);
    GoodSays(CshGrammar.Paren(t, NoFile, NoFile, NOFLAGS.(amp := true)), ws, i, j, fl);
    PlacedNode(t, ws, i, j);
    MarksNode(t);
  }

  lemma ApartIs(t: Command, fl: Context)
    requires Apart(t, fl.pin, fl.pout, fl.perr, fl.here) && Open(fl)
    ensures Apart(CshGrammar.Paren(t, NoFile, NoFile, NOFLAGS.(amp := true)), fl.pin, fl.pout, fl.perr, fl.here)
  {
  }

  lemma PlacedNode(t: Command, ws: seq<Word>, i: nat, j: nat)
    requires i <= j <= |ws| && Placed(t, ws, i, j) && IsNode(t)
    ensures Placed(CshGrammar.Paren(t, NoFile, NoFile, NOFLAGS.(amp := true)), ws, i, j)
  {
  }

  lemma MarksNode(t: Command)
    requires Marks(t) && Quiet(t)
    ensures Marks(CshGrammar.Paren(t, NoFile, NoFile, NOFLAGS.(amp := true)))
  {
  }

  lemma BackGood(t1: Command, ws: seq<Word>, i: nat, j: nat, fl: Context)
    requires i <= j <= |ws| && Good(t1, ws, i, j, fl) && Quiet(t1) && Open(fl) && !t1.Null?
    ensures var b := InBackground(t1); Good(b, ws, i, j, fl) && !b.Null? && b.flags.amp
  {
    hide Good;
    if IsNode(t1) {
      NodeGood(t1, ws, i, j, fl);
    } else {
      AmpGood(t1, ws, i, j, fl);
    }
  }

  lemma Good0(t: Command, ws: seq<Word>, i: nat, j: nat, fl: Context)
    requires i <= j <= |ws| && OfSyn0(t, ws, i, j, fl) && Open(fl)
    ensures Good(t, ws, i, j, fl) && Quiet(t)
    decreases j - i, 6
  {
    if OfSyn1(t, ws, i, j, fl) {
      Good1(t, ws, i, j, fl);
    } else {
      var p :| i <= p < j && BackAt(t, ws, i, p, j, fl);
      hide *;
      BackSays(t, ws, i, p, j, fl);
      var t1 :| OfSyn1(t1, ws, i, p, fl) && t.car == InBackground(t1);
      Good1(t1, ws, i, p, fl);
      NotNull1(t1, ws, i, p, fl);
      BackGood(t1, ws, i, p, fl);
      GoodSyntax(t.cdr, ws, p + 1, j, fl);
      FrontIs(t);
      ListGood(t, ws, i, p, j, fl);
    }
  }

  lemma FrontIs(t: Command)
    requires t.List? && !t.car.Null?
    ensures Front(t) == t.car && Behind(t) == t.cdr
  {
  }

  lemma NotNull1(t: Command, ws: seq<Word>, i: nat, j: nat, fl: Context)
    requires i <= j <= |ws| && OfSyn1(t, ws, i, j, fl)
    ensures !t.Null?
  {
    Sound1(t, ws, i, j, fl);
  }

  lemma GoodSyntax(t: Command, ws: seq<Word>, i: nat, j: nat, fl: Context)
    requires i <= j <= |ws| && OfSyntax(t, ws, i, j, fl) && Open(fl)
    ensures GoodRest(t, ws, i, j, fl)
    decreases j - i, 7
  {
    if i == j {
      RestHere(t, ws, i, j, fl);
    } else if IsSep(ws[i]) {
      GoodSyntax(t, ws, i + 1, j, fl);
      RestMore(t, ws, i, j, fl);
    } else {
      Good0(t, ws, i, j, fl);
      RestHere(t, ws, i, j, fl);
    }
  }
}
