/** src/bin/csh/parse.c: whatever the grammar derives has the shape of a line, is balanced, and has
    the arguments of the range as its words. */
module CshReads {
  import opened CshWords
  import opened CshGrammar
  import opened CshRanges

  // What a reader of the words makes of an item

  /** A reader that has come from p to k in a redirection. */
  ghost predicate Within(ws: seq<Word>, p: nat, k: nat, st: St, redir: nat)
    requires k <= |ws|
  {
    Args(ws, p, k, st) == [] && End(ws, p, k, st) == st.(start := false, redir := redir)
  }

  lemma WithinNext(ws: seq<Word>, p: nat, k: nat, st: St, redir: nat)
    requires p < k < |ws| && Settled(st) && redir > 0 && Within(ws, p, k, st, redir)
    ensures Within(ws, p, k + 1, st, if redir == 1 && ws[k] == "&" then 2 else if redir < 3 && ws[k] == "!" then 3 else 0)
  {
    ArgsNext(ws, p, k, st);
  }

  lemma WithinStart(ws: seq<Word>, p: nat, st: St)
    requires p < |ws| && Settled(st) && (First(ws[p]) == '>' || First(ws[p]) == '<')
    ensures Within(ws, p, p + 1, st, if First(ws[p]) == '>' then 1 else 3)
  {
    ArgsOne(ws, p, st);
  }

  /** A redirection is no argument, and changes nothing but that a command has begun. */
  lemma RedirReads(it: Item, ws: seq<Word>, p: nat, st: St)
    requires p + Len(it) <= |ws| && ItemAt(it, ws, p) && (it.Out? || it.In?) && Settled(st)
    ensures Args(ws, p, p + Len(it), st) == [] && End(ws, p, p + Len(it), st) == st.(start := false)
  {
    assert Within(ws, p, p + Len(it), st, 0) by {
      hide Within, Args, End;
      WithinStart(ws, p, st);
      WithinNext(ws, p, p + 1, st, if it.Out? then 1 else 3);
      if it.Out? {
        if it.err {
          WithinNext(ws, p, p + 2, st, 2);
          if it.force {
            WithinNext(ws, p, p + 3, st, 3);
          }
        } else if it.force {
          WithinNext(ws, p, p + 2, st, 3);
        }
      }
    }
  }

  /** After a keyword, all that is in parentheses are arguments. */
  lemma {:induction false} BlockReads(ws: seq<Word>, p: nat, n: nat, k: nat, st: St)
    requires p + n <= |ws| && IsBlock(ws, p, n) && Settled(st) && st.special && 1 <= k <= n
    ensures Args(ws, p, p + k, st) == ws[p..p + k] && Level(ws, p, p + k) >= 0
    ensures End(ws, p, p + k, st) == st.(depth := Level(ws, p, p + k))
  {
    if k == 1 {
      ArgsOne(ws, p, st);
      assert Level(ws, p, p) == 0;
    } else {
      BlockReads(ws, p, n, k - 1, st);
      ArgsNext(ws, p, p + k - 1, st);
      assert Level(ws, p, p + k - 1) > 0;
      assert ws[p..p + k] == ws[p..p + k - 1] + [ws[p + k - 1]];
    }
  }

  /** A reader at p, outside parentheses. */
  ghost predicate Reads(ws: seq<Word>, i: nat, p: nat, j: nat, args: seq<Word>, specp: bool)
    requires i <= p <= j <= |ws|
  {
    var e := End(ws, i, p, START);
    Args(ws, i, p, START) == args && Settled(e) && if e.start then !e.special && SpecialFrom(ws, p, j) == specp else e.special == specp
  }

  lemma ArgReads(w: Word, ws: seq<Word>, i: nat, p: nat, j: nat, args: seq<Word>, specp: bool)
    requires i <= p < j <= |ws| && Reads(ws, i, p, j, args, specp) && ws[p] == w && Ordinary(w)
    ensures Reads(ws, i, p + 1, j, args + [w], specp)
  {
    ArgsNext(ws, i, p, START);
  }

  lemma OtherReads(it: Item, ws: seq<Word>, i: nat, p: nat, j: nat, args: seq<Word>, specp: bool)
    requires i <= p && p + Len(it) <= j <= |ws| && ItemAt(it, ws, p) && !it.Arg? && Reads(ws, i, p, j, args, specp) && (it.Block? ==> specp)
    ensures Reads(ws, i, p + Len(it), j, args + if it.Block? then ws[p..p + it.n] else [], specp)
  {
    var e := End(ws, i, p, START);
    ArgsSplit(ws, i, p, p + Len(it), START);
    if it.Block? {
      assert !e.start;
      BlockReads(ws, p, it.n, it.n, e);
    } else {
      RedirReads(it, ws, p, e);
    }
  }

  lemma ItemReads(it: Item, ws: seq<Word>, i: nat, q: nat, p: nat, j: nat, args: seq<Word>, specp: bool)
    requires i <= q && p == q + Len(it) <= j <= |ws| && ItemAt(it, ws, q) && Reads(ws, i, q, j, args, specp) && (it.Block? ==> specp)
    ensures Reads(ws, i, p, j, args + (if it.Arg? then [it.word] else if it.Block? && specp then ws[q..p] else []), specp)
  {
    hide Reads;
    if it.Arg? {
      ArgReads(it.word, ws, i, q, j, args, specp);
    } else {
      OtherReads(it, ws, i, q, j, args, specp);
    }
  }

  lemma ReadsNone(ws: seq<Word>, i: nat, j: nat)
    requires i <= j <= |ws|
    ensures Reads(ws, i, i, j, [], SpecialFrom(ws, i, j))
  {
  }

  lemma NoItems(ws: seq<Word>, i: nat, p: nat, specp: bool)
    requires p <= |ws|
    ensures Spelled([], ws, i, p) ==> i == p
    ensures ArgWords([], ws, specp) == [] && Blocks([]) == []
  {
  }

  lemma {:induction false} SpelledReads(items: seq<Item>, ws: seq<Word>, i: nat, p: nat, j: nat)
    requires i <= p <= j <= |ws| && Spelled(items, ws, i, p) && (SpecialFrom(ws, i, j) || Blocks(items) == [])
    ensures Reads(ws, i, p, j, ArgWords(items, ws, SpecialFrom(ws, i, j)), SpecialFrom(ws, i, j))
  {
    hide *;
    var specp := SpecialFrom(ws, i, j);
    if items == [] {
      NoItems(ws, i, p, specp);
      ReadsNone(ws, i, j);
    } else {
      Unspelled(items, ws, i, p);
      var init, it := items[..|items| - 1], items[|items| - 1];
      var q := p - Len(it);
      SpelledReads(init, ws, i, q, j);
      ItemReads(it, ws, i, q, p, j, ArgWords(init, ws, specp), specp);
    }
  }

  /** A group and redirections: the arguments are those of the group. */
  ghost predicate ReadsGroup(b: Item, ws: seq<Word>, i: nat, p: nat)
    requires b.Block? && p <= |ws|
  {
    && i <= b.from && b.n >= 2 && b.from + b.n <= p
    && (Settled(End(ws, b.from + 1, b.from + b.n - 1, START)) ==>
      Args(ws, i, p, START) == Args(ws, b.from + 1, b.from + b.n - 1, START) && End(ws, i, p, START) == AFTER)
  }

  lemma GroupThen(it: Item, b: Item, ws: seq<Word>, i: nat, p: nat)
    requires b.Block? && p + Len(it) <= |ws| && ReadsGroup(b, ws, i, p) && ItemAt(it, ws, p) && (it.Out? || it.In?)
    ensures ReadsGroup(b, ws, i, p + Len(it))
  {
    RedirReads(it, ws, p, AFTER);
    ArgsSplit(ws, i, p, p + Len(it), START);
  }

  /** The group of a command without arguments, seen from the end: the last item is the group, and
      only redirections come before it, or it is a redirection. */
  lemma GroupOrNot(items: seq<Item>, b: Item, ws: seq<Word>, i: nat, p: nat)
    requires i <= p <= |ws| && Spelled(items, ws, i, p) && Blocks(items) == [b] && ArgWords(items, ws, false) == []
    ensures items != []
    ensures var init, it := items[..|items| - 1], items[|items| - 1]; var q := p - Len(it);
      && i <= q && ItemAt(it, ws, q) && Spelled(init, ws, i, q) && ArgWords(init, ws, false) == []
      && if it.Block? then b == it == Block(q, it.n) && IsBlock(ws, q, it.n) && Blocks(init) == []
         else (it.Out? || it.In?) && Blocks(init) == [b]
  {
    Unspelled(items, ws, i, p);
    hide Spelled, Blocks, ArgWords, IsBlock;
    var init, it := items[..|items| - 1], items[|items| - 1];
    assert |Blocks(items)| == |Blocks(init)| + if it.Block? then 1 else 0;
    assert it.Block? ==> Blocks(items)[|Blocks(init)|] == it;
    assert |ArgWords(items, ws, false)| == |ArgWords(init, ws, false)| + if it.Arg? then 1 else 0;
  }

  lemma {:induction false} GroupReads(items: seq<Item>, b: Item, ws: seq<Word>, i: nat, p: nat, j: nat)
    requires i <= p <= j <= |ws| && Spelled(items, ws, i, p) && !SpecialFrom(ws, i, j) && Blocks(items) == [b] && ArgWords(items, ws, false) == []
    ensures b.Block? && ReadsGroup(b, ws, i, p)
  {
    hide *;
    GroupOrNot(items, b, ws, i, p);
    var init, it := items[..|items| - 1], items[|items| - 1];
    var q := p - Len(it);
    if it.Block? {
      BlockLen(it);
      NotSpecial(init, ws, i, q, j);
      BlockGroup(ws, i, q, it.n, p);
    } else {
      GroupReads(init, b, ws, i, q, j);
      GroupThen(it, b, ws, i, q);
    }
  }

  lemma BlockLen(it: Item)
    requires it.Block?
    ensures Len(it) == it.n
  {
  }

  /** Where a group begins. */
  lemma NotSpecial(items: seq<Item>, ws: seq<Word>, i: nat, q: nat, j: nat)
    requires i <= q <= j <= |ws| && Spelled(items, ws, i, q) && !SpecialFrom(ws, i, j) && Blocks(items) == [] && ArgWords(items, ws, false) == []
    ensures Args(ws, i, q, START) == [] && Settled(End(ws, i, q, START)) && !End(ws, i, q, START).special
  {
    SpelledReads(items, ws, i, q, j);
  }

  lemma BlockGroup(ws: seq<Word>, i: nat, q: nat, n: nat, p: nat)
    requires i <= q && p == q + n <= |ws| && IsBlock(ws, q, n)
    requires Args(ws, i, q, START) == [] && Settled(End(ws, i, q, START)) && !End(ws, i, q, START).special
    ensures ReadsGroup(Block(q, n), ws, i, p)
  {
    BlockRange(ws, q, n);
    ArgsNext(ws, i, q, START);
    ArgsSplit(ws, i, q + 1, p - 1, START);
    if Settled(End(ws, q + 1, p - 1, START)) {
      ArgsNext(ws, i, p - 1, START);
      hide Args, End, Level, Range, IsBlock;
      assert [] + Args(ws, q + 1, p - 1, START) + [] == Args(ws, q + 1, p - 1, START);
    }
  }

  // What the grammar derives

  /** What the tree of a range says: its words are the arguments of the range. */
  ghost predicate Parsed(t: Command, ws: seq<Word>, i: nat, j: nat)
    requires j <= |ws|
  {
    Words(t) == Args(ws, i, j, START) && Settled(End(ws, i, j, START))
  }

  lemma ParsedIs(t: Command, ws: seq<Word>, i: nat, j: nat)
    requires j <= |ws|
    ensures Parsed(t, ws, i, j) <==> Words(t) == Args(ws, i, j, START) && Settled(End(ws, i, j, START))
  {
  }

  /** No redirection and no pipe is open at the end of the range. */
  predicate Closed(ws: seq<Word>, i: nat, j: nat)
    requires j <= |ws|
  {
    i < j && First(ws[j - 1]) !in ['>', '|']
  }

  /** A node for two parts around an operator. */
  lemma ParsedAround(ws: seq<Word>, i: nat, p: nat, q: nat, j: nat, car: Command, cdr: Command)
    requires i <= p < q <= j <= |ws| && Parsed(car, ws, i, p) && Parsed(cdr, ws, q, j)
    requires First(ws[p]) == '|' || IsSep(ws[p])
    requires q == p + 1 || (q == p + 2 && IsSep(ws[p + 1]))
    ensures Words(car) + Words(cdr) == Args(ws, i, j, START) && Settled(End(ws, i, j, START))
  {
    ArgsAround(ws, i, p, j);
    if q == p + 2 {
      ArgsAround(ws, p + 1, p + 1, j);
    }
  }

  lemma ParsedSkip(ws: seq<Word>, i: nat, j: nat, t: Command)
    requires i < j <= |ws| && IsSep(ws[i]) && Parsed(t, ws, i + 1, j)
    ensures Parsed(t, ws, i, j)
  {
    ArgsAround(ws, i, i, j);
  }

  lemma RangeLess(ws: seq<Word>, i: nat, j: nat, m: nat, n: nat)
    requires i <= j <= |ws| && Range(ws, i, j, m) && n <= m
    ensures Range(ws, i, j, n)
  {
    forall k | i <= k < j && Level(ws, i, k) == 0 ensures Allowed(ws, i, k, n) {
      AllowedMore(ws, i, i, k, m, n);
    }
  }

  lemma NoWords(ws: seq<Word>, j: nat)
    requires j <= |ws|
    ensures Parsed(Null, ws, j, j) && forall n :: Range(ws, j, j, n)
  {
  }

  lemma LeafSays(t: Command, items: seq<Item>, ws: seq<Word>, i: nat, j: nat, fl: Context)
    requires i <= j <= |ws| && LeafOf(t, items, ws, i, j, fl)
    ensures Fits(items, fl, SpecialFrom(ws, i, j))
    ensures SpecialFrom(ws, i, j) || Blocks(items) == [] ==> t == MadeOf(items, ws, i, j) && t.args != []
    ensures !SpecialFrom(ws, i, j) && Blocks(items) != [] ==>
      var b := Blocks(items)[0];
      && b in Blocks(items) && Blocks(items) == [b] && ArgWords(items, ws, false) == [] && t.Paren?
      && t == CshGrammar.Paren(t.sub, LastName(Ins(items)), LastName(Outs(items)), FlagsOf(items, IsLast(ws, j)))
      && i <= b.from && b.n >= 2 && b.from + b.n <= j && OfSyn0(t.sub, ws, b.from + 1, b.from + b.n - 1, HERE)
  {
  }

  lemma SoundSimple(items: seq<Item>, ws: seq<Word>, i: nat, j: nat)
    requires i <= j <= |ws| && Spelled(items, ws, i, j) && (SpecialFrom(ws, i, j) || Blocks(items) == [])
    ensures Parsed(MadeOf(items, ws, i, j), ws, i, j)
    ensures MadeOf(items, ws, i, j).args != [] ==> IsCommand(MadeOf(items, ws, i, j)) && items != []
  {
    SpelledReads(items, ws, i, j, j);
  }

  lemma SoundGroup(t: Command, b: Item, ws: seq<Word>, i: nat, j: nat)
    requires b.Block? && i <= j <= |ws| && ReadsGroup(b, ws, i, j) && t.Paren? && IsLine(t.sub) && Parsed(t.sub, ws, b.from + 1, b.from + b.n - 1)
    ensures Parsed(t, ws, i, j) && IsCommand(t)
  {
  }

  lemma SoundLeaf(t: Command, items: seq<Item>, ws: seq<Word>, i: nat, j: nat, fl: Context)
    requires i <= j <= |ws| && Spelled(items, ws, i, j) && LeafOf(t, items, ws, i, j, fl)
    ensures IsCommand(t) && Parsed(t, ws, i, j) && items != []
    decreases j - i, 0, 0
  {
    hide *;
    LeafSays(t, items, ws, i, j, fl);
    if SpecialFrom(ws, i, j) || Blocks(items) == [] {
      SoundSimple(items, ws, i, j);
    } else {
      var b := Blocks(items)[0];
      GroupReads(items, b, ws, i, j, j);
      Sound0(t.sub, ws, b.from + 1, b.from + b.n - 1, HERE);
      SoundGroup(t, b, ws, i, j);
      NoItems(ws, i, j, false);
    }
  }

  // What the nodes around an operator say

  lemma PipeSays(t: Command, ws: seq<Word>, i: nat, p: nat, j: nat, fl: Context)
    requires i <= p < j <= |ws|
    ensures PipeAt(t, ws, i, p, j, fl) <==>
      var q := if t.Pipe? && t.flags.err then p + 2 else p + 1;
      && t.Pipe? && t.flags == NOFLAGS.(err := t.flags.err) && IsBar(ws[p]) && q <= j && (t.flags.err ==> ws[p + 1] == "&")
      && OfSyn3(t.car, ws, i, p, fl.(pout := true, perr := fl.perr || t.flags.err)) && OfSyn2(t.cdr, ws, q, j, fl.(pin := true))
  {
  }

  lemma AndSays(t: Command, ws: seq<Word>, i: nat, p: nat, j: nat, fl: Context)
    requires i <= p < j <= |ws|
    ensures AndAt(t, ws, i, p, j, fl) <==>
      t.And? && t.flags == NOFLAGS && IsAndAnd(ws[p]) && OfSyn2(t.car, ws, i, p, fl) && OfSyn1b(t.cdr, ws, p + 1, j, fl)
  {
  }

  lemma OrSays(t: Command, ws: seq<Word>, i: nat, p: nat, j: nat, fl: Context)
    requires i <= p < j <= |ws|
    ensures OrAt(t, ws, i, p, j, fl) <==>
      t.Or? && t.flags == NOFLAGS && IsOrOr(ws[p]) && OfSyn1b(t.car, ws, i, p, fl) && OfSyn1a(t.cdr, ws, p + 1, j, fl)
  {
  }

  /** The command in front of a ; is on the right when nothing follows. */
  function Front(t: Command): Command
    requires t.List?
  {
    if t.car.Null? then t.cdr else t.car
  }

  function Behind(t: Command): Command
    requires t.List?
  {
    if t.car.Null? then Null else t.cdr
  }

  lemma ListSays(t: Command, ws: seq<Word>, i: nat, p: nat, j: nat, fl: Context)
    requires i <= p < j <= |ws|
    ensures ListAt(t, ws, i, p, j, fl) <==>
      && t.List? && t.flags == NOFLAGS && IsSemi(ws[p]) && OfSyn1a(Front(t), ws, i, p, fl) && OfRest(Behind(t), ws, p + 1, j, fl)
      && (!t.car.Null? ==> !t.cdr.Null?)
  {
  }

  lemma BackSays(t: Command, ws: seq<Word>, i: nat, p: nat, j: nat, fl: Context)
    requires i <= p < j <= |ws|
    ensures BackAt(t, ws, i, p, j, fl) <==>
      && t.List? && t.flags == NOFLAGS && IsBack(ws[p]) && OfSyntax(t.cdr, ws, p + 1, j, fl)
      && exists t1 :: OfSyn1(t1, ws, i, p, fl) && t.car == InBackground(t1)
  {
  }

  lemma Sound3(t: Command, ws: seq<Word>, i: nat, j: nat, fl: Context)
    requires i <= j <= |ws| && OfSyn3(t, ws, i, j, fl)
    ensures IsCommand(t) && Range(ws, i, j, 5) && Parsed(t, ws, i, j) && Closed(ws, i, j)
    decreases j - i, 0, 1
  {
    var items :| Spelled(items, ws, i, j) && LeafOf(t, items, ws, i, j, fl);
    hide LeafOf;
    SpelledRange(items, ws, i, j);
    SoundLeaf(t, items, ws, i, j, fl);
  }

  lemma Joined2(t: Command, ws: seq<Word>, i: nat, p: nat, q: nat, j: nat)
    requires i <= p < q <= j <= |ws| && t.Pipe? && Parsed(t.car, ws, i, p) && Parsed(t.cdr, ws, q, j) && IsBar(ws[p])
    requires q == p + 1 || (q == p + 2 && ws[p + 1] == "&")
    requires Range(ws, i, p, 5) && Range(ws, q, j, 4) && IsCommand(t.car) && IsPipe(t.cdr) && Closed(ws, q, j)
    ensures IsPipe(t) && Range(ws, i, j, 4) && Parsed(t, ws, i, j) && Closed(ws, i, j)
  {
    hide Range, Parsed, IsCommand;
    RangeAround(ws, i, p, q, j, 5, 4);
    ParsedAround(ws, i, p, q, j, t.car, t.cdr);
    ParsedIs(t, ws, i, j);
  }

  lemma Sound2(t: Command, ws: seq<Word>, i: nat, j: nat, fl: Context)
    requires i <= j <= |ws| && OfSyn2(t, ws, i, j, fl)
    ensures IsPipe(t) && Range(ws, i, j, 4) && Parsed(t, ws, i, j) && Closed(ws, i, j)
    decreases j - i, 2
  {
    if OfSyn3(t, ws, i, j, fl) {
      Sound3(t, ws, i, j, fl);
      RangeLess(ws, i, j, 5, 4);
    } else {
      var p :| i <= p < j && PipeAt(t, ws, i, p, j, fl);
      PipeSays(t, ws, i, p, j, fl);
      hide PipeAt, OfSyn3, OfSyn2, Range, Parsed, IsCommand, IsPipe, IsBar;
      var q := if t.flags.err then p + 2 else p + 1;
      Sound3(t.car, ws, i, p, fl.(pout := true, perr := fl.perr || t.flags.err));
      Sound2(t.cdr, ws, q, j, fl.(pin := true));
      Joined2(t, ws, i, p, q, j);
    }
  }

  lemma Sound1b(t: Command, ws: seq<Word>, i: nat, j: nat, fl: Context)
    requires i <= j <= |ws| && OfSyn1b(t, ws, i, j, fl)
    ensures IsAnd(t) && Range(ws, i, j, 3) && Parsed(t, ws, i, j) && Closed(ws, i, j)
    decreases j - i, 4
  {
    if OfSyn2(t, ws, i, j, fl) {
      Sound2(t, ws, i, j, fl);
      RangeLess(ws, i, j, 4, 3);
    } else {
      var p :| i <= p < j && AndAt(t, ws, i, p, j, fl);
      AndSays(t, ws, i, p, j, fl);
      hide AndAt, OfSyn2, OfSyn1b, Range, Parsed, IsPipe;
      Sound2(t.car, ws, i, p, fl);
      Sound1b(t.cdr, ws, p + 1, j, fl);
      RangeAround(ws, i, p, p + 1, j, 4, 3);
      ParsedAround(ws, i, p, p + 1, j, t.car, t.cdr);
      ParsedIs(t, ws, i, j);
    }
  }

  lemma Sound1a(t: Command, ws: seq<Word>, i: nat, j: nat, fl: Context)
    requires i <= j <= |ws| && OfSyn1a(t, ws, i, j, fl)
    ensures IsOr(t) && Range(ws, i, j, 2) && Parsed(t, ws, i, j) && Closed(ws, i, j)
    decreases j - i, 6
  {
    if OfSyn1b(t, ws, i, j, fl) {
      Sound1b(t, ws, i, j, fl);
      RangeLess(ws, i, j, 3, 2);
    } else {
      var p :| i <= p < j && OrAt(t, ws, i, p, j, fl);
      OrSays(t, ws, i, p, j, fl);
      hide OrAt, OfSyn1b, OfSyn1a, Range, Parsed, IsAnd;
      Sound1b(t.car, ws, i, p, fl);
      Sound1a(t.cdr, ws, p + 1, j, fl);
      RangeAround(ws, i, p, p + 1, j, 3, 2);
      ParsedAround(ws, i, p, p + 1, j, t.car, t.cdr);
      ParsedIs(t, ws, i, j);
    }
  }

  lemma Joined1(t: Command, ws: seq<Word>, i: nat, p: nat, j: nat)
    requires i <= p < j <= |ws| && t.List? && t.flags == NOFLAGS && IsSemi(ws[p]) && (!t.car.Null? ==> !t.cdr.Null?)
    requires Parsed(Front(t), ws, i, p) && Range(ws, i, p, 2) && IsOr(Front(t))
    requires Parsed(Behind(t), ws, p + 1, j) && Range(ws, p + 1, j, 1) && (Behind(t).Null? || IsList(Behind(t)))
    requires p + 1 < j ==> Closed(ws, p + 1, j)
    ensures IsList(t) && Range(ws, i, j, 1) && Parsed(t, ws, i, j) && Closed(ws, i, j)
  {
    hide Range, Parsed, IsOr;
    RangeAround(ws, i, p, p + 1, j, 2, 1);
    ParsedAround(ws, i, p, p + 1, j, Front(t), Behind(t));
    assert [] + Words(Front(t)) == Words(Front(t)) == Words(Front(t)) + [];
    ParsedIs(t, ws, i, j);
  }

  lemma Sound1(t: Command, ws: seq<Word>, i: nat, j: nat, fl: Context)
    requires i <= j <= |ws| && OfSyn1(t, ws, i, j, fl)
    ensures IsList(t) && Range(ws, i, j, 1) && Parsed(t, ws, i, j) && Closed(ws, i, j)
    decreases j - i, 8
  {
    if OfSyn1a(t, ws, i, j, fl) {
      Sound1a(t, ws, i, j, fl);
      RangeLess(ws, i, j, 2, 1);
    } else {
      var p :| i <= p < j && ListAt(t, ws, i, p, j, fl);
      hide *;
      ListSays(t, ws, i, p, j, fl);
      Sound1a(Front(t), ws, i, p, fl);
      SoundRest(Behind(t), ws, p + 1, j, fl);
      Joined1(t, ws, i, p, j);
    }
  }

  lemma SoundRest(t: Command, ws: seq<Word>, i: nat, j: nat, fl: Context)
    requires i <= j <= |ws| && OfRest(t, ws, i, j, fl)
    ensures (t.Null? || IsList(t)) && Range(ws, i, j, 1) && Parsed(t, ws, i, j) && (i < j ==> Closed(ws, i, j))
    decreases j - i, 9
  {
    if i == j {
      NoWords(ws, j);
    } else if IsSep(ws[i]) {
      SoundRest(t, ws, i + 1, j, fl);
      NoWords(ws, i);
      hide OfRest, Range, Parsed;
      RangeAround(ws, i, i, i + 1, j, 1, 1);
      ParsedSkip(ws, i, j, t);
    } else {
      Sound1(t, ws, i, j, fl);
    }
  }

  lemma Joined0(t: Command, t1: Command, ws: seq<Word>, i: nat, p: nat, j: nat)
    requires i <= p < j <= |ws| && t.List? && IsBack(ws[p]) && t.car == InBackground(t1)
    requires Parsed(t1, ws, i, p) && Range(ws, i, p, 1) && IsList(t1)
    requires Parsed(t.cdr, ws, p + 1, j) && Balanced(ws, p + 1, j) && (t.cdr.Null? || IsLine(t.cdr))
    ensures IsLine(t) && Balanced(ws, i, j) && Parsed(t, ws, i, j)
  {
    BackIsPipe(t1);
    hide Parsed, Balanced, InBackground, IsPipe, IsList;
    BalancedAround(ws, i, p, p + 1, j);
    ParsedAround(ws, i, p, p + 1, j, t1, t.cdr);
    ParsedIs(t, ws, i, j);
  }

  lemma Sound0(t: Command, ws: seq<Word>, i: nat, j: nat, fl: Context)
    requires i <= j <= |ws| && OfSyn0(t, ws, i, j, fl)
    ensures IsLine(t) && Balanced(ws, i, j) && Parsed(t, ws, i, j)
    decreases j - i, 11
  {
    if OfSyn1(t, ws, i, j, fl) {
      Sound1(t, ws, i, j, fl);
    } else {
      var p :| i <= p < j && BackAt(t, ws, i, p, j, fl);
      hide *;
      BackSays(t, ws, i, p, j, fl);
      var t1 :| OfSyn1(t1, ws, i, p, fl) && t.car == InBackground(t1);
      Sound1(t1, ws, i, p, fl);
      SoundSyntax(t.cdr, ws, p + 1, j, fl);
      Joined0(t, t1, ws, i, p, j);
    }
  }

  lemma SoundSyntax(t: Command, ws: seq<Word>, i: nat, j: nat, fl: Context)
    requires i <= j <= |ws| && OfSyntax(t, ws, i, j, fl)
    ensures (t.Null? || IsLine(t)) && Balanced(ws, i, j) && Parsed(t, ws, i, j)
    decreases j - i, 12
  {
    if i == j {
      NoWords(ws, j);
    } else if IsSep(ws[i]) {
      SoundSyntax(t, ws, i + 1, j, fl);
      hide OfSyntax, Parsed;
      BalancedAround(ws, i, i, i + 1, j);
      ParsedSkip(ws, i, j, t);
    } else {
      Sound0(t, ws, i, j, fl);
    }
  }

  // One level of the grammar

  lemma OfPipe(t: Command, ws: seq<Word>, i: nat, p: nat, j: nat, fl: Context)
    requires i <= p < j <= |ws| && PipeAt(t, ws, i, p, j, fl)
    ensures OfSyn2(t, ws, i, j, fl)
  {
  }

  lemma OnlyOne2(t: Command, ws: seq<Word>, i: nat, j: nat, fl: Context)
    requires i <= j <= |ws| && OfSyn3(t, ws, i, j, fl)
    ensures OfSyn2(t, ws, i, j, fl)
  {
  }

  lemma OfAnd(t: Command, ws: seq<Word>, i: nat, p: nat, j: nat, fl: Context)
    requires i <= p < j <= |ws| && AndAt(t, ws, i, p, j, fl)
    ensures OfSyn1b(t, ws, i, j, fl)
  {
  }

  lemma OnlyOne1b(t: Command, ws: seq<Word>, i: nat, j: nat, fl: Context)
    requires i <= j <= |ws| && OfSyn2(t, ws, i, j, fl)
    ensures OfSyn1b(t, ws, i, j, fl)
  {
  }

  lemma OfOr(t: Command, ws: seq<Word>, i: nat, p: nat, j: nat, fl: Context)
    requires i <= p < j <= |ws| && OrAt(t, ws, i, p, j, fl)
    ensures OfSyn1a(t, ws, i, j, fl)
  {
  }

  lemma OnlyOne1a(t: Command, ws: seq<Word>, i: nat, j: nat, fl: Context)
    requires i <= j <= |ws| && OfSyn1b(t, ws, i, j, fl)
    ensures OfSyn1a(t, ws, i, j, fl)
  {
  }

  lemma OfList(t: Command, ws: seq<Word>, i: nat, p: nat, j: nat, fl: Context)
    requires i <= p < j <= |ws| && ListAt(t, ws, i, p, j, fl)
    ensures OfSyn1(t, ws, i, j, fl)
  {
  }

  lemma OnlyOne1(t: Command, ws: seq<Word>, i: nat, j: nat, fl: Context)
    requires i <= j <= |ws| && OfSyn1a(t, ws, i, j, fl)
    ensures OfSyn1(t, ws, i, j, fl)
  {
  }

  lemma OfBack(t: Command, ws: seq<Word>, i: nat, p: nat, j: nat, fl: Context)
    requires i <= p < j <= |ws| && BackAt(t, ws, i, p, j, fl)
    ensures OfSyn0(t, ws, i, j, fl)
  {
  }

  lemma OnlyOne0(t: Command, ws: seq<Word>, i: nat, j: nat, fl: Context)
    requires i <= j <= |ws| && OfSyn1(t, ws, i, j, fl)
    ensures OfSyn0(t, ws, i, j, fl)
  {
  }

  lemma SkipOne(t: Command, ws: seq<Word>, p: nat, j: nat, fl: Context)
    requires p < j <= |ws| && IsSep(ws[p])
    ensures OfSyntax(t, ws, p, j, fl) <==> OfSyntax(t, ws, p + 1, j, fl)
  {
  }

  lemma SyntaxEnds(ws: seq<Word>, j: nat, fl: Context)
    requires j <= |ws|
    ensures OfSyntax(Null, ws, j, j, fl)
  {
  }
}
