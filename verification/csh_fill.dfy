/** src/bin/csh/parse.c: what syn3 knows of a command while it reads the words. */
module CshFill {
  import opened Seqs
  import opened CshWords
  import opened CshGrammar
  import opened CshRanges
  import opened CshReads
  import opened CshLeaves

  // The items that syn3 has read

  lemma MoreItems(items: seq<Item>, it: Item, ws: seq<Word>, specp: bool)
    ensures Ins(items + [it]) == Ins(items) + (if it.In? then [it] else [])
    ensures Outs(items + [it]) == Outs(items) + (if it.Out? then [it] else [])
    ensures Blocks(items + [it]) == Blocks(items) + (if it.Block? then [it] else [])
    ensures ArgWords(items + [it], ws, specp) == ArgWords(items, ws, specp) +
      if it.Arg? then [it.word] else if it.Block? && specp && it.from + it.n <= |ws| then ws[it.from..it.from + it.n] else []
  {
    assert (items + [it])[..|items|] == items;
  }

  /** What a redirection does to the flags. */
  function FlagsMore(f: CmdFlags, it: Item): CmdFlags {
    match it
    case Out(append, err, force, _) => f.(append := f.append || append, err := f.err || err, overwrite := f.overwrite || force)
    case In(read, _) => f.(read := f.read || read)
    case _ => f
  }

  lemma MoreFlags(items: seq<Item>, it: Item, nofork: bool)
    ensures FlagsOf(items + [it], nofork) == FlagsMore(FlagsOf(items, nofork), it)
  {
    MoreItems(items, it, [], false);
    hide Ins, Outs;
    var f, g := FlagsOf(items + [it], nofork), FlagsMore(FlagsOf(items, nofork), it);
    assert it.Out? ==> it in Outs(items + [it]);
    assert it.In? ==> it in Ins(items + [it]);
    assert forall x :: x in Outs(items) ==> x in Outs(items + [it]);
    assert forall x :: x in Ins(items) ==> x in Ins(items + [it]);
    assert f.append == g.append && f.err == g.err && f.overwrite == g.overwrite && f.read == g.read;
  }

  /** When one more item fits. */
  predicate FitsToo(items: seq<Item>, it: Item, fl: Context, specp: bool) {
    match it
    case Arg(_) => true
    case Block(_, _) => specp || Blocks(items) == []
    case Out(_, err, _, _) => !((fl.pout || fl.perr) && err) && !(fl.pout && (!fl.perr || Outs(items) != []))
    case In(read, _) => !(fl.here && read) && !fl.pin && Ins(items) == []
  }

  lemma MoreFits(items: seq<Item>, it: Item, fl: Context, specp: bool)
    ensures Fits(items + [it], fl, specp) <==> Fits(items, fl, specp) && FitsToo(items, it, fl, specp)
  {
    MoreItems(items, it, [], specp);
    hide Ins, Outs, Blocks;
    assert it.Out? ==> it in Outs(items + [it]);
    assert forall x :: x in Outs(items + [it]) <==> x in Outs(items) || (it.Out? && x == it);
    assert Ins(items) == [] && it.In? ==> Ins(items + [it])[0] == it;
    assert Ins(items) != [] ==> Ins(items + [it])[0] == Ins(items)[0];
  }

  lemma {:induction false} FitsPrefix(items: seq<Item>, k: nat, fl: Context, specp: bool)
    requires k <= |items| && Fits(items, fl, specp)
    ensures Fits(items[..k], fl, specp)
    decreases |items|
  {
    if k < |items| {
      var init := items[..|items| - 1];
      assert items == init + [items[|items| - 1]];
      hide Fits;
      MoreFits(init, items[|items| - 1], fl, specp);
      FitsPrefix(init, k, fl, specp);
      assert init[..k] == items[..k];
    } else {
      assert items[..k] == items;
    }
  }

  /** The item that comes next in a list that the whole range is spelled by. */
  lemma NextItem(whole: seq<Item>, done: seq<Item>, ws: seq<Word>, i: nat, p: nat, j: nat, fl: Context, specp: bool) returns (it: Item)
    requires i <= p < j <= |ws| && Spelled(whole, ws, i, j) && Spelled(done, ws, i, p) && Fits(whole, fl, specp)
    ensures p + Len(it) <= j && ItemAt(it, ws, p) && Fits(done + [it], fl, specp)
  {
    hide *;
    SamePrefix(done, whole, ws, i, p, j, |done|);
    assert done[..|done|] == done;
    SpelledTotal(done, ws, i, p);
    SpelledTotal(whole, ws, i, j);
    assert whole[..|whole|] == whole;
    SpelledAt(whole, ws, i, j, |done|);
    it := whole[|done|];
    assert done + [it] == whole[..|done| + 1];
    FitsPrefix(whole, |done| + 1, fl, specp);
  }

  // The state of syn3 at p

  /** The items done so far, and perhaps a parenthesis that is open since o. */
  ghost predicate Piece(ws: seq<Word>, i: nat, o: nat, p: nat, l: int, done: seq<Item>)
    requires p <= |ws|
  {
    && i <= o <= p && Spelled(done, ws, i, o) && l == Level(ws, i, p) >= 0
    && if l == 0 then o == p else o < p && First(ws[o]) == '(' && Level(ws, o, p) == l && forall k :: o < k <= p ==> Level(ws, o, k) > 0
  }

  /** The arguments stored so far, and what has been stored of an open parenthesis. */
  ghost predicate Stored(ws: seq<Word>, o: nat, p: nat, done: seq<Item>, args: seq<Word>, specp: bool)
    requires o <= p <= |ws|
  {
    args == ArgWords(done, ws, specp) + if specp then ws[o..p] else []
  }

  /** lp and rp around the group. */
  ghost predicate Group(o: nat, l: int, done: seq<Item>, lp: nat, rp: nat, specp: bool) {
    specp ||
    if l > 0 then lp == o + 1 && Blocks(done) == []
    else if lp == 0 then Blocks(done) == []
    else lp <= rp && Blocks(done) == [Block(lp - 1, rp - lp + 2)]
  }

  ghost predicate Redirected(done: seq<Item>, lef: File, rit: File, flags: CmdFlags, nofork: bool) {
    lef == LastName(Ins(done)) && rit == LastName(Outs(done)) && flags == FlagsOf(done, nofork)
  }

  lemma PieceArg(ws: seq<Word>, i: nat, p: nat, done: seq<Item>)
    requires i <= p < |ws| && Piece(ws, i, p, p, 0, done) && Ordinary(ws[p])
    ensures Piece(ws, i, p + 1, p + 1, 0, done + [Arg(ws[p])])
  {
    SpelledMore(done, Arg(ws[p]), ws, i, p);
  }

  lemma PieceOpen(ws: seq<Word>, i: nat, p: nat, done: seq<Item>)
    requires i <= p < |ws| && Piece(ws, i, p, p, 0, done) && First(ws[p]) == '('
    ensures Piece(ws, i, p, p + 1, 1, done)
  {
    assert Level(ws, p, p + 1) == 1;
  }

  lemma PieceInner(ws: seq<Word>, i: nat, o: nat, p: nat, l: int, done: seq<Item>)
    requires i <= p < |ws| && Piece(ws, i, o, p, l, done) && l > 0 && l + CshWords.Paren(ws[p]) > 0
    ensures Piece(ws, i, o, p + 1, l + CshWords.Paren(ws[p]), done)
  {
  }

  lemma PieceClose(ws: seq<Word>, i: nat, o: nat, p: nat, l: int, done: seq<Item>)
    requires i <= p < |ws| && Piece(ws, i, o, p, l, done) && l > 0 && l + CshWords.Paren(ws[p]) == 0
    ensures Piece(ws, i, p + 1, p + 1, 0, done + [Block(o, p + 1 - o)])
  {
    assert IsBlock(ws, o, p + 1 - o);
    SpelledMore(done, Block(o, p + 1 - o), ws, i, o);
  }

  lemma PieceRedirect(ws: seq<Word>, i: nat, p: nat, done: seq<Item>, it: Item)
    requires i <= p && p + Len(it) <= |ws| && Piece(ws, i, p, p, 0, done) && ItemAt(it, ws, p)
    ensures Piece(ws, i, p + Len(it), p + Len(it), 0, done + [it])
  {
    SpelledMore(done, it, ws, i, p);
    SpelledRange(done + [it], ws, i, p + Len(it));
  }

  // What is stored

  lemma {:induction false} RedirectionSum(ws: seq<Word>, i: nat, j: nat, p: nat, k: nat, specp: bool)
    requires i <= p < k < j <= |ws| && Level(ws, i, p) == 0 && (First(ws[p]) == '>' || First(ws[p]) == '<')
    requires forall m {:trigger ws[m]} :: p < m <= k ==> !IsRelPar(ws[m])
    ensures Level(ws, i, k + 1) == 0 && Sum(ws, i, j, p, k + 1, specp) >= 0
    decreases k
  {
    assert !IsRelPar(ws[k]);
    if k > p + 1 {
      RedirectionSum(ws, i, j, p, k - 1, specp);
    } else {
      assert Level(ws, i, p + 1) == 0;
      assert Sum(ws, i, j, p, p, specp) == 0;
      assert Sum(ws, i, j, p, p + 1, specp) >= -1;
    }
  }

  /** Is the word stored, once it is known to be no redirection? */
  predicate Stores(w: Word, l: int, specp: bool) {
    if First(w) == '(' || First(w) == ')' || ((First(w) == '>' || First(w) == '<') && l != 0) then specp else l == 0 || specp
  }

  /** No more than what was counted is stored. */
  lemma RoomFill(ws: seq<Word>, i: nat, j: nat, p: nat, l: int, n: nat, specp: bool)
    requires i <= p < j <= |ws| && l == Level(ws, i, p) && n <= Sum(ws, i, j, i, p, specp) && Stores(ws[p], l, specp)
    requires (First(ws[p]) == '>' || First(ws[p]) == '<') ==> l != 0
    ensures n < Sum(ws, i, j, i, j, specp)
  {
    RoomFor(ws, i, j, p, n, specp);
  }

  /** A word outside parentheses that is no redirection. */
  lemma IsOrdinary(ws: seq<Word>, i: nat, j: nat, p: nat, done: seq<Item>)
    requires i <= p < j <= |ws| && Range(ws, i, j, 5) && Piece(ws, i, p, p, 0, done) && First(ws[p]) !in ['(', '<', '>']
    ensures Ordinary(ws[p])
  {
    SpelledRange(done, ws, i, p);
    assert Level(ws, i, p + 1) >= 0;
    assert Allowed(ws, i, p, 5);
    assert p > i ==> First(ws[p - 1]) !in ['>', '|'];
  }

  /** The file name of a redirection that starts at p0. */
  lemma NameIsOrdinary(ws: seq<Word>, i: nat, j: nat, p0: nat, p: nat)
    requires i <= p0 < p < j <= |ws| && p <= p0 + 3 && Range(ws, i, j, 5) && Level(ws, i, p0) == 0
    requires First(ws[p0]) == '<' || First(ws[p0]) == '>'
    requires p0 + 1 < p ==> First(ws[p0 + 1]) in ['&', '!'] && First(ws[p - 1]) in ['&', '!']
    requires !IsRelPar(ws[p]) && (First(ws[p - 1]) == '>' ==> ws[p] != "&")
    ensures Ordinary(ws[p])
  {
    assert Level(ws, i, p0 + 1) == 0;
    assert p >= p0 + 2 ==> Level(ws, i, p0 + 2) == 0;
    assert p >= p0 + 3 ==> Level(ws, i, p0 + 3) == 0;
    assert Allowed(ws, i, p, 5);
  }

  /** The parts of a pipe are fit for syn3 and syn2. */
  lemma CutPipe(ws: seq<Word>, i: nat, p: nat, q: nat, j: nat)
    requires i <= p < q <= j <= |ws| && Range(ws, i, j, 4) && Level(ws, i, p) == 0 && Scanned(ws, i, p, 5)
    requires First(ws[p]) == '|' && q == if p + 1 != j && First(ws[p + 1]) == '&' then p + 2 else p + 1
    ensures Range(ws, i, p, 5) && Range(ws, q, j, 4) && IsBar(ws[p]) && (q == p + 2 ==> ws[p + 1] == "&")
  {
    assert Allowed(ws, i, p, 4);
    RangeBefore(ws, i, p, j, 4, 5);
    assert Level(ws, i, p + 1) == 0;
    if q == p + 2 {
      assert Level(ws, i, p + 2) == 0;
      assert Allowed(ws, i, p + 1, 4);
    }
    RangeAfter(ws, i, q, j, 4);
  }

  /** Without an input redirection so far nothing has been read with <<. */
  lemma NoRead(done: seq<Item>, fl: Context, specp: bool, nofork: bool)
    requires Fits(done, fl, specp)
    ensures fl.here ==> !FlagsOf(done, nofork).read
    ensures LastName(Ins(done)) == NoFile <==> Ins(done) == []
  {
    assert forall it :: it in Ins(done) ==> it == Ins(done)[0];
  }

  /** What syn3 has at p: a parenthesis open since o (or o == p), the level, the items and arguments
      so far, the place behind ( and that of ), and the redirections. */
  datatype Reading = Reading(o: nat, l: int, done: seq<Item>, args: seq<Word>, lp: nat, rp: nat, lef: File, rit: File, flags: CmdFlags)

  /** syn3 at p, without an error so far. */
  ghost predicate Filling(r: Reading, ws: seq<Word>, i: nat, p: nat, j: nat, fl: Context, specp: bool)
    requires i <= p <= j <= |ws|
  {
    && Piece(ws, i, r.o, p, r.l, r.done) && Stored(ws, r.o, p, r.done, r.args, specp) && |r.args| <= Sum(ws, i, j, i, p, specp)
    && Group(r.o, r.l, r.done, r.lp, r.rp, specp) && Redirected(r.done, r.lef, r.rit, r.flags, IsLast(ws, j)) && Fits(r.done, fl, specp)
  }

  lemma FillStart(ws: seq<Word>, i: nat, j: nat, fl: Context, specp: bool)
    requires i <= j <= |ws|
    ensures Filling(Reading(i, 0, [], [], 0, 0, NoFile, NoFile, NOFLAGS.(nofork := IsLast(ws, j))), ws, i, i, j, fl, specp)
  {
  }

  lemma FillingSays(r: Reading, ws: seq<Word>, i: nat, p: nat, j: nat, fl: Context, specp: bool)
    requires i <= p <= j <= |ws| && Filling(r, ws, i, p, j, fl, specp)
    ensures Level(ws, i, p) == r.l && Fits(r.done, fl, specp) && r.lef == LastName(Ins(r.done)) && r.rit == LastName(Outs(r.done))
    ensures r.flags == FlagsOf(r.done, IsLast(ws, j)) && i <= r.o <= p && Spelled(r.done, ws, i, r.o) && (r.l == 0 ==> r.o == p)
    ensures r.l == 0 && !specp ==> (r.lp == 0 <==> Blocks(r.done) == [])
  {
  }

  /** The redirections after one more item. */
  lemma RedirectedMore(done: seq<Item>, it: Item, lef: File, rit: File, flags: CmdFlags, nofork: bool)
    requires Redirected(done, lef, rit, flags, nofork)
    ensures Redirected(done + [it], if it.In? then File(it.name) else lef, if it.Out? then File(it.name) else rit, FlagsMore(flags, it), nofork)
  {
    MoreItems(done, it, [], false);
    MoreFlags(done, it, nofork);
    hide Ins, Outs, FlagsOf;
  }

  /** What is stored after one more item. */
  lemma StoredMore(ws: seq<Word>, o: nat, q: nat, done: seq<Item>, it: Item, args: seq<Word>, specp: bool)
    requires o <= q <= |ws| && (it.Block? ==> it == Block(o, q - o)) && args == ArgWords(done, ws, specp)
    ensures Stored(ws, q, q, done + [it], args + (if it.Arg? then [it.word] else if it.Block? && specp then ws[o..q] else []), specp)
  {
    MoreItems(done, it, ws, specp);
    assert ws[q..q] == [];
  }

  lemma GroupMore(o: nat, q: nat, done: seq<Item>, it: Item, lp: nat, rp: nat, specp: bool)
    requires Group(o, 0, done, lp, rp, specp) && !it.Block?
    ensures Group(q, 0, done + [it], lp, rp, specp)
  {
    MoreItems(done, it, [], specp);
  }

  lemma GroupClose(o: nat, p: nat, l: int, done: seq<Item>, lp: nat, rp: nat, specp: bool)
    requires Group(o, l, done, lp, rp, specp) && l > 0 && o < p
    ensures Group(p + 1, 0, done + [Block(o, p + 1 - o)], lp, p, specp)
  {
    MoreItems(done, Block(o, p + 1 - o), [], specp);
  }

  lemma FillingIs(r: Reading, ws: seq<Word>, i: nat, p: nat, j: nat, fl: Context, specp: bool)
    requires i <= p <= j <= |ws|
    ensures Filling(r, ws, i, p, j, fl, specp) <==>
      && Piece(ws, i, r.o, p, r.l, r.done) && r.o <= p && Stored(ws, r.o, p, r.done, r.args, specp) && |r.args| <= Sum(ws, i, j, i, p, specp)
      && Group(r.o, r.l, r.done, r.lp, r.rp, specp) && Redirected(r.done, r.lef, r.rit, r.flags, IsLast(ws, j)) && Fits(r.done, fl, specp)
  {
  }

  lemma StoredSays(ws: seq<Word>, o: nat, p: nat, done: seq<Item>, args: seq<Word>, specp: bool)
    requires o <= p <= |ws|
    ensures Stored(ws, o, p, done, args, specp) <==> args == ArgWords(done, ws, specp) + if specp then ws[o..p] else []
    ensures specp && p < |ws| ==> ws[o..p + 1] == ws[o..p] + [ws[p]]
    ensures ws[p..p] == []
  {
  }

  lemma PieceSays(ws: seq<Word>, i: nat, o: nat, p: nat, l: int, done: seq<Item>)
    requires p <= |ws| && Piece(ws, i, o, p, l, done)
    ensures l == Level(ws, i, p) >= 0 && if l > 0 then o < p else o == p
  {
  }

  /** A redirection. */
  lemma FillRedirect(r: Reading, it: Item, ws: seq<Word>, i: nat, p: nat, j: nat, fl: Context, specp: bool, lef: File, rit: File)
    requires i <= p < j <= |ws| && p + Len(it) <= j && Filling(r, ws, i, p, j, fl, specp) && r.l == 0
    requires ItemAt(it, ws, p) && Fits(r.done + [it], fl, specp)
    requires (it.Out? && lef == r.lef && rit == File(it.name)) || (it.In? && rit == r.rit && lef == File(it.name))
    ensures var q := p + Len(it); Filling(r.(o := q, done := r.done + [it], lef := lef, rit := rit, flags := FlagsMore(r.flags, it)), ws, i, q, j, fl, specp)
  {
    hide *;
    var q := p + Len(it);
    FillingIs(r, ws, i, p, j, fl, specp);
    PieceSays(ws, i, r.o, p, r.l, r.done);
    StoredSays(ws, p, p, r.done, r.args, specp);
    assert r.args == ArgWords(r.done, ws, specp);
    PieceRedirect(ws, i, p, r.done, it);
    StoredMore(ws, p, q, r.done, it, r.args, specp);
    assert r.args + [] == r.args;
    GroupMore(p, q, r.done, it, r.lp, r.rp, specp);
    RedirectedMore(r.done, it, r.lef, r.rit, r.flags, IsLast(ws, j));
    RedirectionStart(it, ws, p);
    RedirectionSum(ws, i, j, p, q - 1, specp);
    SumSplit(ws, i, j, i, p, q, specp);
    FillingIs(r.(o := q, done := r.done + [it], lef := lef, rit := rit, flags := FlagsMore(r.flags, it)), ws, i, q, j, fl, specp);
  }

  lemma RedirectionStart(it: Item, ws: seq<Word>, p: nat)
    requires p + Len(it) <= |ws| && ItemAt(it, ws, p) && (it.Out? || it.In?)
    ensures (First(ws[p]) == '>' || First(ws[p]) == '<') && Len(it) >= 2
    ensures forall m {:trigger ws[m]} :: p < m < p + Len(it) ==> !IsRelPar(ws[m])
  {
  }

  /** What becomes of the state with a word that is no redirection. */
  function After(r: Reading, w: Word, p: nat, specp: bool): Reading {
    var l := r.l + CshWords.Paren(w);
    var args := if Stores(w, r.l, specp) then r.args + [w] else r.args;
    if r.l == 0 && First(w) == '(' then r.(l := 1, args := args, lp := p + 1)
    else if r.l == 0 then r.(o := p + 1, done := r.done + [Arg(w)], args := args)
    else if l == 0 then r.(o := p + 1, l := 0, done := r.done + [Block(r.o, if p + 1 > r.o then p + 1 - r.o else 0)], args := args, rp := p)
    else r.(l := l, args := args)
  }

  lemma AfterIs(r0: Reading, ws: seq<Word>, i: nat, p: nat, j: nat, fl: Context, specp: bool)
    requires i <= p < j <= |ws| && Filling(r0, ws, i, p, j, fl, specp) && Range(ws, i, j, 5)
    ensures var w, r := ws[p], After(r0, ws[p], p, specp);
      r == r0.(o := r.o, l := r0.l + CshWords.Paren(w), done := r.done, args := r.args,
        lp := if First(w) == '(' && r0.l == 0 then p + 1 else r0.lp, rp := if First(w) == ')' && r0.l == 1 then p else r0.rp)
  {
    assert Level(ws, i, p + 1) >= 0;
  }

  lemma FillCount(r: Reading, ws: seq<Word>, i: nat, p: nat, j: nat, fl: Context, specp: bool)
    requires i <= p < j <= |ws| && Filling(r, ws, i, p, j, fl, specp) && ((First(ws[p]) == '>' || First(ws[p]) == '<') ==> r.l != 0)
    ensures |After(r, ws[p], p, specp).args| <= Sum(ws, i, j, i, p + 1, specp)
    ensures Stores(ws[p], r.l, specp) ==> |r.args| < Sum(ws, i, j, i, j, specp)
  {
    FillingIs(r, ws, i, p, j, fl, specp);
    PieceSays(ws, i, r.o, p, r.l, r.done);
    hide Filling, Piece, Stored, Group, Redirected, Fits, Spelled;
    assert Sum(ws, i, j, i, p + 1, specp) == Sum(ws, i, j, i, p, specp) + Counts(ws, i, j, p, specp);
    if Stores(ws[p], r.l, specp) {
      RoomFill(ws, i, j, p, r.l, |r.args|, specp);
    }
  }

  lemma FillArg(r: Reading, ws: seq<Word>, i: nat, p: nat, j: nat, fl: Context, specp: bool)
    requires i <= p < j <= |ws| && Filling(r, ws, i, p, j, fl, specp) && r.l == 0 && Ordinary(ws[p])
    ensures Filling(After(r, ws[p], p, specp), ws, i, p + 1, j, fl, specp)
  {
    hide *;
    var it, r' := Arg(ws[p]), After(r, ws[p], p, specp);
    AfterArg(r, ws[p], p, specp);
    FillCount(r, ws, i, p, j, fl, specp);
    FillingIs(r, ws, i, p, j, fl, specp);
    PieceSays(ws, i, r.o, p, r.l, r.done);
    StoredSays(ws, p, p, r.done, r.args, specp);
    assert r.args == ArgWords(r.done, ws, specp);
    PieceArg(ws, i, p, r.done);
    StoredMore(ws, p, p + 1, r.done, it, r.args, specp);
    GroupMore(p, p + 1, r.done, it, r.lp, r.rp, specp);
    RedirectedMore(r.done, it, r.lef, r.rit, r.flags, IsLast(ws, j));
    MoreFits(r.done, it, fl, specp);
    FillingIs(r', ws, i, p + 1, j, fl, specp);
  }

  /** The two kinds of items that are no redirections. */
  lemma AfterArg(r: Reading, w: Word, p: nat, specp: bool)
    requires r.l == 0 && Ordinary(w)
    ensures After(r, w, p, specp) == r.(o := p + 1, done := r.done + [Arg(w)], args := r.args + [w]) && First(w) !in ['<', '>']
    ensures FlagsMore(r.flags, Arg(w)) == r.flags && forall items, fl :: FitsToo(items, Arg(w), fl, specp)
  {
  }

  lemma AfterClose(r: Reading, w: Word, p: nat, specp: bool)
    requires r.l > 0 && r.o < p && r.l + CshWords.Paren(w) == 0
    ensures var it := Block(r.o, p + 1 - r.o);
      && After(r, w, p, specp) == r.(o := p + 1, l := 0, done := r.done + [it], args := if specp then r.args + [w] else r.args, rp := p)
      && FlagsMore(r.flags, it) == r.flags && forall items, fl :: (specp || Blocks(items) == []) ==> FitsToo(items, it, fl, specp)
  {
  }

  lemma AfterInner(r: Reading, w: Word, p: nat, specp: bool)
    requires if r.l == 0 then First(w) == '(' else r.l + CshWords.Paren(w) > 0
    ensures After(r, w, p, specp) ==
      r.(l := r.l + CshWords.Paren(w), lp := if r.l == 0 then p + 1 else r.lp, args := if specp then r.args + [w] else r.args)
    ensures r.l == 0 ==> CshWords.Paren(w) == 1
  {
  }

  /** A parenthesis opens, or a word within. */
  lemma FillInner(r: Reading, ws: seq<Word>, i: nat, p: nat, j: nat, fl: Context, specp: bool)
    requires i <= p < j <= |ws| && Filling(r, ws, i, p, j, fl, specp)
    requires if r.l == 0 then First(ws[p]) == '(' && (specp || r.lp == 0) else r.l + CshWords.Paren(ws[p]) > 0
    ensures Filling(After(r, ws[p], p, specp), ws, i, p + 1, j, fl, specp)
  {
    hide *;
    FillCount(r, ws, i, p, j, fl, specp);
    FillingIs(r, ws, i, p, j, fl, specp);
    PieceSays(ws, i, r.o, p, r.l, r.done);
    StoredSays(ws, r.o, p, r.done, r.args, specp);
    AfterInner(r, ws[p], p, specp);
    var r' := After(r, ws[p], p, specp);
    if r.l == 0 {
      PieceOpen(ws, i, p, r.done);
      GroupOpen(p, r.done, r.lp, r.rp, specp);
    } else {
      PieceInner(ws, i, r.o, p, r.l, r.done);
      GroupInner(r.o, r.l, r'.l, r.done, r.lp, r.rp, specp);
    }
    StoredSays(ws, r.o, p + 1, r.done, r'.args, specp);
    Assoc(ArgWords(r.done, ws, specp), ws[r.o..p], [ws[p]]);
    FillingIs(r', ws, i, p + 1, j, fl, specp);
  }

  lemma GroupOpen(o: nat, done: seq<Item>, lp: nat, rp: nat, specp: bool)
    requires Group(o, 0, done, lp, rp, specp) && (specp || lp == 0)
    ensures Group(o, 1, done, o + 1, rp, specp)
  {
  }

  lemma GroupInner(o: nat, l: int, l': int, done: seq<Item>, lp: nat, rp: nat, specp: bool)
    requires Group(o, l, done, lp, rp, specp) && l > 0 && l' > 0
    ensures Group(o, l', done, lp, rp, specp)
  {
  }

  lemma FillClose(r: Reading, ws: seq<Word>, i: nat, p: nat, j: nat, fl: Context, specp: bool)
    requires i <= p < j <= |ws| && Filling(r, ws, i, p, j, fl, specp) && r.l > 0 && r.l + CshWords.Paren(ws[p]) == 0
    ensures Filling(After(r, ws[p], p, specp), ws, i, p + 1, j, fl, specp)
  {
    hide *;
    FillCount(r, ws, i, p, j, fl, specp);
    FillingIs(r, ws, i, p, j, fl, specp);
    PieceSays(ws, i, r.o, p, r.l, r.done);
    StoredSays(ws, r.o, p, r.done, r.args, specp);
    AfterClose(r, ws[p], p, specp);
    var it, r', args := Block(r.o, p + 1 - r.o), After(r, ws[p], p, specp), ArgWords(r.done, ws, specp);
    PieceClose(ws, i, r.o, p, r.l, r.done);
    StoredMore(ws, r.o, p + 1, r.done, it, args, specp);
    assert r'.args == args + (if specp then ws[r.o..p + 1] else []);
    GroupClose(r.o, p, r.l, r.done, r.lp, r.rp, specp);
    GroupFree(r.o, r.l, r.done, r.lp, r.rp, specp);
    RedirectedMore(r.done, it, r.lef, r.rit, r.flags, IsLast(ws, j));
    MoreFits(r.done, it, fl, specp);
    FillingIs(r', ws, i, p + 1, j, fl, specp);
  }

  lemma GroupFree(o: nat, l: int, done: seq<Item>, lp: nat, rp: nat, specp: bool)
    requires Group(o, l, done, lp, rp, specp) && l > 0
    ensures specp || Blocks(done) == []
  {
  }

  /** A word that is no redirection. */
  lemma FillStep(r: Reading, ws: seq<Word>, i: nat, p: nat, j: nat, fl: Context, specp: bool)
    requires i <= p < j <= |ws| && Filling(r, ws, i, p, j, fl, specp) && Range(ws, i, j, 5)
    requires (First(ws[p]) == '>' || First(ws[p]) == '<') ==> r.l != 0
    requires First(ws[p]) == '(' && r.l == 0 ==> r.lp == 0 || specp
    ensures Filling(After(r, ws[p], p, specp), ws, i, p + 1, j, fl, specp)
    ensures Stores(ws[p], r.l, specp) ==> |r.args| < Sum(ws, i, j, i, j, specp)
  {
    FillCount(r, ws, i, p, j, fl, specp);
    assert r.l == Level(ws, i, p) >= 0 && r.l + CshWords.Paren(ws[p]) == Level(ws, i, p + 1) >= 0;
    if r.l == 0 && First(ws[p]) != '(' {
      IsOrdinary(ws, i, j, p, r.done);
    }
    hide *;
    if r.l == 0 && First(ws[p]) != '(' {
      FillArg(r, ws, i, p, j, fl, specp);
    } else if r.l + CshWords.Paren(ws[p]) == 0 {
      FillClose(r, ws, i, p, j, fl, specp);
    } else {
      FillInner(r, ws, i, p, j, fl, specp);
    }
  }

  lemma FillEnd(r: Reading, ws: seq<Word>, i: nat, j: nat, fl: Context, specp: bool)
    requires i <= j <= |ws| && Range(ws, i, j, 5) && Filling(r, ws, i, j, j, fl, specp)
    ensures r.l == 0 && r.o == j
  {
  }

  /** The items that have been read are tidy words that suit, and such words are items. */
  lemma FillTidy(r: Reading, ws: seq<Word>, i: nat, j: nat, fl: Context, specp: bool)
    requires i <= j <= |ws| && Filling(r, ws, i, j, j, fl, specp) && r.o == j
    ensures Tidy(ws, i, j) && Suits(ws, i, j, fl, specp)
  {
    hide *;
    FillingSays(r, ws, i, j, j, fl, specp);
    SpelledIsTidy(r.done, ws, i, j);
    FitsIsSuits(r.done, ws, i, j, fl, specp);
  }

  lemma WholeOf(ws: seq<Word>, i: nat, j: nat, fl: Context, specp: bool) returns (whole: seq<Item>)
    requires i <= j <= |ws| && Tidy(ws, i, j) && Suits(ws, i, j, fl, specp)
    ensures Spelled(whole, ws, i, j) && Fits(whole, fl, specp)
  {
    hide *;
    TidyIsSpelled(ws, i, j);
    whole :| Spelled(whole, ws, i, j);
    FitsIsSuits(whole, ws, i, j, fl, specp);
  }

  // What is made of the items

  lemma MadeSimple(r: Reading, ws: seq<Word>, i: nat, j: nat, fl: Context) returns (t: Command)
    requires i <= j <= |ws| && Filling(r, ws, i, j, j, fl, SpecialFrom(ws, i, j)) && r.l == 0 && r.o == j
    requires (r.lp == 0 || SpecialFrom(ws, i, j)) && r.args != []
    ensures t == Simple(r.args, r.lef, r.rit, r.flags) && OfSyn3(t, ws, i, j, fl)
  {
    hide Spelled, Fits, Level, Sum, Ins, Outs, Blocks, FlagsOf;
    t := Simple(r.args, r.lef, r.rit, r.flags);
    assert ws[j..j] == [];
    assert t == MadeOf(r.done, ws, i, j);
    assert LeafOf(t, r.done, ws, i, j, fl);
  }

  lemma GroupRead(r: Reading, ws: seq<Word>, i: nat, j: nat, fl: Context)
    requires i <= j <= |ws| && Filling(r, ws, i, j, j, fl, false) && r.l == 0 && r.o == j && r.lp != 0
    ensures i < r.lp <= r.rp < j && First(ws[r.rp]) == ')' && Blocks(r.done) == [Block(r.lp - 1, r.rp - r.lp + 2)]
    ensures ArgWords(r.done, ws, false) == r.args
  {
    hide *;
    FillingIs(r, ws, i, j, j, fl, false);
    FillingSays(r, ws, i, j, j, fl, false);
    StoredSays(ws, j, j, r.done, r.args, false);
    assert ArgWords(r.done, ws, false) + [] == ArgWords(r.done, ws, false);
    GroupEnds(r.o, r.done, r.lp, r.rp);
    BlocksIn(r.done, ws, i, j, Block(r.lp - 1, r.rp - r.lp + 2));
  }

  lemma GroupEnds(o: nat, done: seq<Item>, lp: nat, rp: nat)
    requires Group(o, 0, done, lp, rp, false) && lp != 0
    ensures lp <= rp && Blocks(done) == [Block(lp - 1, rp - lp + 2)] && Block(lp - 1, rp - lp + 2) in Blocks(done)
  {
  }

  /** The groups are within the range. */
  lemma {:induction false} BlocksIn(items: seq<Item>, ws: seq<Word>, i: nat, j: nat, b: Item)
    requires j <= |ws| && Spelled(items, ws, i, j) && b in Blocks(items)
    ensures b.Block? && i <= b.from && 2 <= b.n && b.from + b.n <= j && First(ws[b.from + b.n - 1]) == ')'
  {
    if items != [] {
      Unspelled(items, ws, i, j);
      hide Spelled, Blocks, ItemAt, IsBlock;
      var it := items[|items| - 1];
      if it == b {
        BlockRange(ws, it.from, it.n);
      } else {
        BlocksIn(items[..|items| - 1], ws, i, j - Len(it), b);
      }
    }
  }

  lemma MadeGroup(r: Reading, sub: Command, ws: seq<Word>, i: nat, j: nat, fl: Context) returns (t: Command)
    requires i <= j <= |ws| && Filling(r, ws, i, j, j, fl, false) && !SpecialFrom(ws, i, j) && r.l == 0 && r.o == j && r.lp != 0
    requires i < r.lp <= r.rp < j && OfSyn0(sub, ws, r.lp, r.rp, HERE) && r.args == []
    ensures t == CshGrammar.Paren(sub, r.lef, r.rit, r.flags) && OfSyn3(t, ws, i, j, fl)
  {
    GroupRead(r, ws, i, j, fl);
    hide Spelled, Fits, Level, Sum, Ins, Outs, Blocks, FlagsOf, ArgWords;
    t := CshGrammar.Paren(sub, r.lef, r.rit, r.flags);
    assert LeafOf(t, r.done, ws, i, j, fl);
  }

  lemma OfSyn3Says(t: Command, ws: seq<Word>, i: nat, j: nat, fl: Context) returns (items: seq<Item>)
    requires i <= j <= |ws| && OfSyn3(t, ws, i, j, fl)
    ensures Spelled(items, ws, i, j) && LeafOf(t, items, ws, i, j, fl) && Fits(items, fl, SpecialFrom(ws, i, j))
  {
    items :| Spelled(items, ws, i, j) && LeafOf(t, items, ws, i, j, fl);
    LeafSays(t, items, ws, i, j, fl);
  }

  /** The items that have been read are those of any derivation. */
  lemma AllRead(r: Reading, items: seq<Item>, ws: seq<Word>, i: nat, j: nat, fl: Context, specp: bool)
    requires i <= j <= |ws| && Filling(r, ws, i, j, j, fl, specp) && r.l == 0 && r.o == j && Spelled(items, ws, i, j)
    ensures items == r.done && r.args == ArgWords(items, ws, specp) && (specp || (r.lp == 0 <==> Blocks(items) == []))
  {
    hide *;
    FillingIs(r, ws, i, j, j, fl, specp);
    FillingSays(r, ws, i, j, j, fl, specp);
    SameItems(items, r.done, ws, i, j);
    StoredSays(ws, j, j, r.done, r.args, specp);
    assert ArgWords(items, ws, specp) + [] == ArgWords(items, ws, specp);
  }

  lemma MadeArgs(items: seq<Item>, ws: seq<Word>, i: nat, j: nat)
    requires i <= j <= |ws|
    ensures MadeOf(items, ws, i, j).args == ArgWords(items, ws, SpecialFrom(ws, i, j))
  {
  }

  /** When the grammar derives something from the range, syn3 finds no error in the items. */
  lemma SimpleAnyway(r: Reading, t: Command, items: seq<Item>, ws: seq<Word>, i: nat, j: nat, fl: Context, specp: bool)
    requires i <= j <= |ws| && specp == SpecialFrom(ws, i, j) && Filling(r, ws, i, j, j, fl, specp) && r.l == 0 && r.o == j
    requires Spelled(items, ws, i, j) && LeafOf(t, items, ws, i, j, fl) && (r.lp == 0 || specp)
    ensures r.args != []
  {
    hide *;
    LeafSays(t, items, ws, i, j, fl);
    MadeArgs(items, ws, i, j);
    AllRead(r, items, ws, i, j, fl, specp);
  }

  lemma GroupAnyway(r: Reading, t: Command, items: seq<Item>, ws: seq<Word>, i: nat, j: nat, fl: Context)
    requires i <= j <= |ws| && !SpecialFrom(ws, i, j) && Filling(r, ws, i, j, j, fl, false) && r.l == 0 && r.o == j
    requires Spelled(items, ws, i, j) && LeafOf(t, items, ws, i, j, fl) && r.lp != 0
    ensures r.args == [] && t.Paren? && r.lp <= r.rp < j && OfSyn0(t.sub, ws, r.lp, r.rp, HERE)
  {
    hide *;
    LeafSays(t, items, ws, i, j, fl);
    AllRead(r, items, ws, i, j, fl, false);
    GroupRead(r, ws, i, j, fl);
  }

  /** No second group is opened when the range has a list of items that fits. */
  lemma OneGroup(r: Reading, whole: seq<Item>, ws: seq<Word>, i: nat, p: nat, j: nat, fl: Context, specp: bool)
    requires i <= p < j <= |ws| && Filling(r, ws, i, p, j, fl, specp) && r.l == 0 && First(ws[p]) == '('
    requires Spelled(whole, ws, i, j) && Fits(whole, fl, specp)
    ensures r.lp == 0 || specp
  {
    hide *;
    FillingSays(r, ws, i, p, j, fl, specp);
    var it := NextItem(whole, r.done, ws, i, p, j, fl, specp);
    MoreFits(r.done, it, fl, specp);
    OnlyBlock(it, ws, p);
    FitsBlock(r.done, it, fl, specp);
  }

  lemma OnlyBlock(it: Item, ws: seq<Word>, p: nat)
    requires p + Len(it) <= |ws| && ItemAt(it, ws, p) && First(ws[p]) == '('
    ensures it.Block?
  {
  }

  lemma FitsBlock(items: seq<Item>, it: Item, fl: Context, specp: bool)
    requires it.Block? && FitsToo(items, it, fl, specp)
    ensures specp || Blocks(items) == []
  {
  }

  // A redirection of the output

  /** What stands behind the > at p0. */
  predicate Options(ws: seq<Word>, p0: nat, j: nat, err: bool, force: bool)
    requires p0 < j <= |ws|
  {
    && err == (p0 + 1 < j && ws[p0 + 1] == "&")
    && var e := if err then p0 + 1 else p0; force == (e + 1 < j && ws[e + 1] == "!")
  }

  lemma GoodName(ws: seq<Word>, p0: nat, p1: nat, j: nat, fl: Context, rit: File, err: bool, force: bool, done: seq<Item>, specp: bool, good: Item)
    requires p0 <= p1 < j <= |ws| && First(ws[p0]) == '>' && p1 == p0 + (if err then 1 else 0) + (if force then 1 else 0)
    requires rit == LastName(Outs(done)) && Options(ws, p0, j, err, force)
    ensures p0 + Len(good) <= j && ItemAt(good, ws, p0) && Fits(done + [good], fl, specp) ==>
      p1 + 1 < j && !IsRelPar(ws[p1 + 1]) && !(fl.pout && (!fl.perr || rit.File?))
  {
    hide Len, ItemAt, Fits, Outs, LastName, IsRelPar;
    if p0 + Len(good) <= j && ItemAt(good, ws, p0) && Fits(done + [good], fl, specp) {
      OutSays(ws, p0, j, good);
      MoreFits(done, good, fl, specp);
      NoName(Outs(done));
    }
  }

  lemma IsName(ws: seq<Word>, i: nat, p0: nat, p: nat, j: nat, fl: Context, rit: File, err: bool, force: bool, done: seq<Item>, specp: bool) returns (it: Item)
    requires i <= p0 < p < j <= |ws| && First(ws[p0]) == '>' && p == p0 + 1 + (if err then 1 else 0) + (if force then 1 else 0)
    requires Range(ws, i, j, 5) && Level(ws, i, p0) == 0 && Fits(done, fl, specp) && rit == LastName(Outs(done))
    requires Options(ws, p0, j, err, force) && !(err && (fl.pout || fl.perr)) && !IsRelPar(ws[p])
    ensures it == Out(Second(ws[p0], '>'), err, force, ws[p]) && p0 + Len(it) == p + 1 && ItemAt(it, ws, p0)
    ensures !(fl.pout && (!fl.perr || rit.File?)) ==> Fits(done + [it], fl, specp)
  {
    hide Range, Level, Fits, Outs, LastName, IsRelPar;
    NameIsOrdinary(ws, i, j, p0, p);
    it := Out(Second(ws[p0], '>'), err, force, ws[p]);
    MoreFits(done, it, fl, specp);
    NoName(Outs(done));
  }

  /** In a pipe that takes the output, >& does not fit. */
  lemma NoErr(ws: seq<Word>, p0: nat, j: nat, it: Item, done: seq<Item>, fl: Context, specp: bool)
    requires p0 + 1 < j <= |ws| && First(ws[p0]) == '>' && ws[p0 + 1] == "&" && (fl.pout || fl.perr)
    ensures !(p0 + Len(it) <= j && ItemAt(it, ws, p0) && Fits(done + [it], fl, specp))
  {
    if p0 + Len(it) <= j && ItemAt(it, ws, p0) && Fits(done + [it], fl, specp) {
      OutSays(ws, p0, j, it);
      MoreFits(done, it, fl, specp);
    }
  }

  lemma OutSays(ws: seq<Word>, p0: nat, j: nat, it: Item)
    requires p0 < j <= |ws| && p0 + Len(it) <= j && First(ws[p0]) == '>' && ItemAt(it, ws, p0)
    ensures it.Out? && it.err == (p0 + 1 < j && ws[p0 + 1] == "&")
    ensures var e := if it.err then p0 + 1 else p0; it.force == (e + 1 < j && ws[e + 1] == "!")
    ensures var p := p0 + Len(it) - 1; p0 < p < j && p == p0 + 1 + (if it.err then 1 else 0) + (if it.force then 1 else 0) && !IsRelPar(ws[p])
  {
  }

  lemma NoName(items: seq<Item>)
    requires forall it :: it in items ==> it.Out? || it.In?
    ensures LastName(items).File? <==> items != []
  {
  }
}
