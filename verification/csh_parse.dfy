/** src/bin/csh/parse.c: from the words of a line to a tree of commands. */
module CshParse {
  import opened CshWords
  import opened CshGrammar
  import opened CshRanges
  import opened CshReads
  import opened CshUnique
  import opened CshLeaves
  import opened CshTrees
  import opened CshAccept
  import opened CshFill

  lemma SyntaxSays(ws: seq<Word>, p: nat, j: nat, fl: Context)
    requires p < j <= |ws|
    ensures forall t :: OfSyntax(t, ws, p, j, fl) <==> if IsSep(ws[p]) then OfSyntax(t, ws, p + 1, j, fl) else OfSyn0(t, ws, p, j, fl)
  {
  }

  /** What syn0 knows of the words before p. */
  ghost predicate Passed(ws: seq<Word>, i: nat, p: nat)
    requires p <= |ws|
  {
    Scanned(ws, i, p, 1) && forall k :: i <= k <= p ==> Level(ws, i, k) >= 0
  }

  lemma PassedStart(ws: seq<Word>, i: nat)
    requires i <= |ws|
    ensures Passed(ws, i, i) && Level(ws, i, i) == 0
  {
  }

  lemma PassedMore(ws: seq<Word>, i: nat, p: nat)
    requires i <= p < |ws| && Passed(ws, i, p) && (First(ws[p]) == ')' ==> Level(ws, i, p) > 0)
    requires IsBack(ws[p]) && Level(ws, i, p) == 0 ==> !Detached(ws, i, p)
    ensures Passed(ws, i, p + 1) && Level(ws, i, p + 1) == Level(ws, i, p) + CshWords.Paren(ws[p])
  {
    if IsBack(ws[p]) {
      DetachedNot(ws, i, p);
    }
  }

  lemma PassedRange(ws: seq<Word>, i: nat, p: nat)
    requires i <= p <= |ws| && Passed(ws, i, p) && Level(ws, i, p) == 0
    ensures Range(ws, i, p, 1) && Scanned(ws, i, p, 1)
  {
  }

  lemma BalancedSays(ws: seq<Word>, i: nat, j: nat)
    requires i <= j <= |ws| && Balanced(ws, i, j)
    ensures Level(ws, i, j) == 0
  {
  }

  lemma PlainAt(ws: seq<Word>, i: nat, p: nat, j: nat)
    requires i <= p < j <= |ws| && Begun(ws, i, j)
    ensures First(ws[p]) !in ['(', ')', '<', '>']
  {
  }

  /** In a balanced range no parenthesis closes too much. */
  lemma Nested(ws: seq<Word>, i: nat, p: nat, j: nat)
    requires i <= p < j <= |ws| && Balanced(ws, i, j)
    ensures Level(ws, i, p) + CshWords.Paren(ws[p]) >= 0 && Level(ws, i, j) == 0
  {
    assert Level(ws, i, p + 1) >= 0;
  }

  lemma GoodPipe(t: Command, ws: seq<Word>, i: nat, j: nat, fl: Context)
    requires i <= j <= |ws| && OfSyn2(t, ws, i, j, fl)
    ensures !fl.perr ==> Good(t, ws, i, j, fl)
  {
    hide OfSyn2, Good;
    if !fl.perr {
      Good2(t, ws, i, j, fl);
    }
  }

  class Parser {
    const words: seq<Word>
    /** An error has been reported. Then the tree is thrown away. */
    var seterr: bool

    constructor (words: seq<Word>)
      ensures this.words == words && !seterr
    {
      this.words, seterr := words, false;
    }

    /** The word at k; behind the last one is the header of the list, with an empty word. */
    function WordAt(k: nat): Word {
      if k < |words| then words[k] else ""
    }

    /** The start of syn3: does the command start with a keyword? */
    method FindSpecial(i: nat, j: nat) returns (specp: bool)
      requires i <= j <= |words|
      ensures specp == SpecialFrom(words, i, j)
    {
      var p := i;
      while p != j && words[p] == "else"
        invariant i <= p <= j && SpecialFrom(words, i, j) == SpecialFrom(words, p, j)
        decreases j - p
      {
        p := p + 1;
      }
      specp := p != j && IsKeyword(words[p]);
    }

    /** The first loop of syn3. */
    method CountWords(i: nat, j: nat, specp: bool) returns (n: nat)
      requires i <= j <= |words|
      ensures n == if Sum(words, i, j, i, j, specp) < 0 then 0 else Sum(words, i, j, i, j, specp)
    {
      var p, l, c := i, 0, 0;
      while p != j
        invariant i <= p <= j && l == Level(words, i, p) && c == Sum(words, i, j, i, p, specp)
        decreases j - p
      {
        var w := words[p];
        if First(w) == '(' {
          if specp {
            c := c + 1;
          }
          l := l + 1;
        } else if First(w) == ')' {
          if specp {
            c := c + 1;
          }
          l := l - 1;
        } else if First(w) == '>' || First(w) == '<' {
          if l != 0 {
            if specp {
              c := c + 1;
            }
          } else if p + 1 != j && !IsRelPar(words[p + 1]) {
            c := c - 1;
          }
        } else if specp || l == 0 {
          c := c + 1;
        }
        p := p + 1;
      }
      n := if c < 0 then 0 else c;
    }

    /** syn3, for the file name after > and its options, the last of which is at p1. */
    method RightName(i: nat, p0: nat, p1: nat, j: nat, fl: Context, rit0: File, ghost err: bool, ghost force: bool, ghost done: seq<Item>, ghost specp: bool, ghost good: Item)
      returns (p: nat, rit: File, ghost it: Item)
      requires i <= p0 <= p1 < j <= |words| && First(words[p0]) == '>' && p1 == p0 + (if err then 1 else 0) + (if force then 1 else 0)
      requires !seterr ==> Range(words, i, j, 5) && Level(words, i, p0) == 0 && Fits(done, fl, specp) && rit0 == LastName(Outs(done))
      requires Options(words, p0, j, err, force) && (err && (fl.pout || fl.perr) ==> seterr)
      modifies this`seterr
      ensures p1 < p <= j && (old(seterr) ==> seterr)
      ensures !seterr ==> it.Out? && p == p0 + Len(it) && ItemAt(it, words, p0) && Fits(done + [it], fl, specp)
      ensures !seterr ==> rit == File(it.name) && it.append == Second(words[p0], '>') && it.err == err && it.force == force
      ensures !old(seterr) ==> (seterr <==> p1 + 1 == j || IsRelPar(words[p1 + 1]) || (fl.pout && (!fl.perr || rit0.File?)))
      ensures !old(seterr) && p0 + Len(good) <= j && ItemAt(good, words, p0) && Fits(done + [good], fl, specp) ==> !seterr
    {
      hide *;
      if !seterr {
        GoodName(words, p0, p1, j, fl, rit0, err, force, done, specp, good);
      }
      p, rit, it := p1 + 1, rit0, good;
      if p == j {
        seterr := true;
        return;
      }
      if IsRelPar(words[p]) {
        seterr := true;
        p := p + 1;
        return;
      }
      if !seterr {
        it := IsName(words, i, p0, p, j, fl, rit0, err, force, done, specp);
      }
      if fl.pout && (!fl.perr || rit.File?) {
        seterr := true;
      } else {
        rit := File(words[p]);
      }
      p := p + 1;
    }

    /** syn3, for > and what belongs to it. It is an error exactly when no redirection is there that
        fits; good stands for any that might be. */
    method RightRedirect(i: nat, p0: nat, j: nat, fl: Context, rit0: File, flags0: CmdFlags, ghost done: seq<Item>, ghost specp: bool, ghost good: Item)
      returns (p: nat, rit: File, flags: CmdFlags, ghost it: Item)
      requires i <= p0 < j <= |words| && First(words[p0]) == '>'
      requires !seterr ==> Range(words, i, j, 5) && Level(words, i, p0) == 0 && Fits(done, fl, specp) && rit0 == LastName(Outs(done))
      modifies this`seterr
      ensures p0 < p <= j && (old(seterr) ==> seterr)
      ensures !seterr ==> it.Out? && p == p0 + Len(it) && ItemAt(it, words, p0) && Fits(done + [it], fl, specp)
      ensures !seterr ==> rit == File(it.name) && flags == FlagsMore(flags0, it)
      ensures !old(seterr) ==> var err, e := p0 + 1 < j && words[p0 + 1] == "&", NameOf(words, p0, j);
        (seterr <==> (err && (fl.pout || fl.perr)) || e == j || IsRelPar(words[e]) || (fl.pout && (!fl.perr || rit0.File?)))
      ensures !old(seterr) && p0 + Len(good) <= j && ItemAt(good, words, p0) && Fits(done + [good], fl, specp) ==> !seterr
    {
      hide Fits, Level, Outs, Range, Len, ItemAt, IsRelPar, LastName;
      p, rit, flags, it := p0, rit0, flags0, good;
      ghost var err, force := false, false;
      if |words[p]| > 1 && words[p][1] == '>' {
        flags := flags.(append := true);
      }
      if p + 1 != j && words[p + 1] == "&" {
        flags := flags.(err := true);
        err := true;
        p := p + 1;
        if fl.pout || fl.perr {
          if !seterr {
            NoErr(words, p0, j, good, done, fl, specp);
          }
          seterr := true;
          p := p + 1;
          return;
        }
      }
      if p + 1 != j && words[p + 1] == "!" {
        flags := flags.(overwrite := true);
        force := true;
        p := p + 1;
      }
      p, rit, it := RightName(i, p0, p, j, fl, rit, err, force, done, specp, good);
    }

    /** syn3, for < and what belongs to it; likewise. */
    method LeftRedirect(i: nat, p0: nat, j: nat, fl: Context, lef0: File, flags0: CmdFlags, ghost done: seq<Item>, ghost specp: bool, ghost good: Item)
      returns (p: nat, lef: File, flags: CmdFlags, ghost it: Item)
      requires i <= p0 < j <= |words| && First(words[p0]) == '<'
      requires !seterr ==> Range(words, i, j, 5) && Level(words, i, p0) == 0 && Fits(done, fl, specp)
      requires !seterr ==> lef0 == LastName(Ins(done)) && flags0 == FlagsOf(done, IsLast(words, j))
      modifies this`seterr
      ensures p0 < p <= j && (old(seterr) ==> seterr)
      ensures !seterr ==> it.In? && p == p0 + Len(it) && ItemAt(it, words, p0) && Fits(done + [it], fl, specp)
      ensures !seterr ==> lef == File(it.name) && flags == FlagsMore(flags0, it)
      ensures !old(seterr) ==> (seterr <==>
        p0 + 1 == j || IsRelPar(words[p0 + 1]) || fl.pin || lef0.File? || (fl.here && Second(words[p0], '<')))
      ensures !old(seterr) && p0 + Len(good) <= j && ItemAt(good, words, p0) && Fits(done + [good], fl, specp) ==> !seterr
    {
      MoreFits(done, good, fl, specp);
      if !seterr {
        NoRead(done, fl, specp, IsLast(words, j));
      }
      hide Fits, Level, Ins, FlagsOf;
      p, lef, flags, it := p0, lef0, flags0, good;
      if |words[p]| > 1 && words[p][1] == '<' {
        flags := flags.(read := true);
      }
      if p + 1 == j {
        seterr := true;
        p := p + 1;
        return;
      }
      p := p + 1;
      if IsRelPar(words[p]) {
        seterr := true;
        p := p + 1;
        return;
      }
      it := In(Second(words[p0], '<'), words[p]);
      MoreFits(done, it, fl, specp);
      if !seterr {
        NameIsOrdinary(words, i, j, p0, p);
      }
      if fl.here && flags.read {
        seterr := true;
      } else if fl.pin || lef.File? {
        seterr := true;
      } else {
        lef := File(words[p]);
      }
      p := p + 1;
    }

    /** The loop body for a redirection. */
    method Redirect(i: nat, p: nat, j: nat, fl: Context, specp: bool, lef0: File, rit0: File, flags0: CmdFlags, ghost r0: Reading,
                    ghost whole: seq<Item>, ghost good: bool) returns (q: nat, lef: File, rit: File, flags: CmdFlags, ghost r: Reading)
      requires i <= p < j <= |words| && First(words[p]) in ['>', '<']
      requires !seterr ==> Range(words, i, j, 5) && Filling(r0, words, i, p, j, fl, specp) && r0.l == 0 && r0.lef == lef0 && r0.rit == rit0 && r0.flags == flags0
      requires good ==> !seterr && Spelled(whole, words, i, j) && Fits(whole, fl, specp)
      modifies this`seterr
      ensures p < q <= j && (old(seterr) ==> seterr) && (good ==> !seterr)
      ensures !seterr ==> Filling(r, words, i, q, j, fl, specp) && r == r0.(o := q, done := r.done, lef := lef, rit := rit, flags := flags)
    {
      hide *;
      ghost var next, it := Arg(""), Arg("");
      r, lef, rit := r0, lef0, rit0;
      if !seterr {
        FillingSays(r0, words, i, p, j, fl, specp);
        if good {
          next := NextItem(whole, r0.done, words, i, p, j, fl, specp);
        }
      }
      if First(words[p]) == '>' {
        q, rit, flags, it := RightRedirect(i, p, j, fl, rit0, flags0, r0.done, specp, next);
      } else {
        q, lef, flags, it := LeftRedirect(i, p, j, fl, lef0, flags0, r0.done, specp, next);
      }
      if !seterr {
        FillRedirect(r0, it, words, i, p, j, fl, specp, lef, rit);
        r := r0.(o := q, done := r0.done + [it], lef := lef, rit := rit, flags := flags);
      }
    }

    /** The loop body for any other word. */
    method StoreWord(i: nat, p: nat, j: nat, fl: Context, specp: bool, av: array<Word>, n0: nat, l: int, ghost r0: Reading) returns (n: nat, ghost r: Reading)
      requires i <= p < j <= |words| && (First(words[p]) in ['>', '<'] ==> l != 0)
      requires !seterr ==> n0 < av.Length && Filling(r0, words, i, p, j, fl, specp) && r0.l == l && r0.args == av[..n0] && Range(words, i, j, 5)
      requires !seterr && First(words[p]) == '(' && l == 0 ==> r0.lp == 0 || specp
      requires av.Length - 1 >= Sum(words, i, j, i, j, specp)
      modifies av
      ensures n == if Stores(words[p], l, specp) then n0 + 1 else n0
      ensures !seterr ==> n < av.Length && Filling(r, words, i, p + 1, j, fl, specp) && r.args == av[..n]
      ensures !seterr ==> var w := words[p];
        r == r0.(o := r.o, l := l + CshWords.Paren(w), done := r.done, args := r.args,
          lp := if First(w) == '(' && l == 0 then p + 1 else r0.lp, rp := if First(w) == ')' && l == 1 then p else r0.rp)
    {
      if !seterr {
        AfterIs(r0, words, i, p, j, fl, specp);
      }
      hide Filling, Range, Sum;
      n, r := n0, r0;
      if !seterr {
        FillStep(r0, words, i, p, j, fl, specp);
        r := After(r0, words[p], p, specp);
      }
      if Stores(words[p], l, specp) {
        if !seterr {
          av[n] := words[p];
          assert av[..n + 1] == r.args;
        }
        n := n + 1;
      }
    }

    /** The second loop of syn3. What it stores always fits into what the first loop counted. It is an
        error exactly when the words outside parentheses are not in order, or do not suit a pipe or the
        parentheses around them. */
    method Fill(i: nat, j: nat, fl: Context, specp: bool, av: array<Word>, flags0: CmdFlags)
      returns (n: nat, lp: nat, rp: nat, lef: File, rit: File, flags: CmdFlags, ghost r: Reading)
      requires i <= j <= |words| && (seterr || Range(words, i, j, 5)) && specp == SpecialFrom(words, i, j)
      requires av.Length > 0 && av.Length - 1 >= Sum(words, i, j, i, j, specp) && flags0 == NOFLAGS.(nofork := IsLast(words, j))
      modifies this`seterr, av
      ensures old(seterr) ==> seterr
      ensures !seterr ==> n < av.Length && Filling(r, words, i, j, j, fl, specp) && r == Reading(j, 0, r.done, av[..n], lp, rp, lef, rit, flags)
      ensures !old(seterr) ==> (!seterr <==> Tidy(words, i, j) && Suits(words, i, j, fl, specp))
      ensures !old(seterr) && Begun(words, i, j) ==> !seterr && n > 0 && lp == 0
    {
      hide Filling, Range, Sum, Level, Spelled, Fits, FlagsMore, FlagsOf, Ins, Outs, Blocks, Tidy, Suits;
      FillStart(words, i, j, fl, specp);
      n, lp, rp, lef, rit, flags := 0, 0, 0, NoFile, NoFile, flags0;
      r := Reading(i, 0, [], [], 0, 0, NoFile, NoFile, flags0);
      ghost var good, begun := !seterr && Tidy(words, i, j) && Suits(words, i, j, fl, specp), !seterr && Begun(words, i, j);
      ghost var whole := [];
      if good {
        whole := WholeOf(words, i, j, fl, specp);
      }
      var p, l := i, 0;
      assert av[..0] == [];
      while p != j
        invariant i <= p <= j && (old(seterr) ==> seterr) && (good ==> !seterr)
        invariant !seterr ==> n < av.Length && Filling(r, words, i, p, j, fl, specp) && r == Reading(r.o, l, r.done, av[..n], lp, rp, lef, rit, flags)
        invariant begun ==> !seterr && l == 0 && lp == 0 && n == p - i
        decreases j - p
      {
        var w := words[p];
        assert begun ==> First(w) !in ['(', ')', '<', '>'];
        if (First(w) == '>' || First(w) == '<') && l == 0 {
          p, lef, rit, flags, r := Redirect(i, p, j, fl, specp, lef, rit, flags, r, whole, good);
        } else {
          if First(w) == '(' && l == 0 && lp != 0 && !specp {
            if good {
              OneGroup(r, whole, words, i, p, j, fl, specp);
            }
            seterr := true;
          }
          n, r := StoreWord(i, p, j, fl, specp, av, n, l, r);
          if First(w) == '(' {
            if l == 0 {
              lp := p + 1;
            }
            l := l + 1;
          } else if First(w) == ')' {
            l := l - 1;
            if l == 0 {
              rp := p;
            }
          }
          p := p + 1;
        }
      }
      if !seterr {
        FillEnd(r, words, i, j, fl, specp);
        FillTidy(r, words, i, j, fl, specp);
      }
    }

    /** syn3 */
    method Syn3(i: nat, j: nat, fl: Context) returns (t: Command)
      requires i <= j <= |words| && (seterr || Range(words, i, j, 5))
      modifies this`seterr
      ensures !t.Null? && (old(seterr) ==> seterr)
      ensures !seterr ==> OfSyn3(t, words, i, j, fl) && LeafBy(t, words, i, j, fl)
      ensures !old(seterr) && (exists u :: OfSyn3(u, words, i, j, fl)) ==> !seterr
      ensures !old(seterr) && Begun(words, i, j) ==> !seterr
      decreases j - i, 0, 0
    {
      ghost var some := !seterr && exists u :: OfSyn3(u, words, i, j, fl);
      ghost var u, whole := Null, [];
      if some {
        u :| OfSyn3(u, words, i, j, fl);
        whole := OfSyn3Says(u, words, i, j, fl);
        SpelledIsTidy(whole, words, i, j);
        FitsIsSuits(whole, words, i, j, fl, SpecialFrom(words, i, j));
      }
      hide Filling, Range, Sum, OfSyn3, Spelled, LeafOf, Fits, SpecialFrom, OfSyn0, LeafBy, Tidy, Suits;
      var specp := FindSpecial(i, j);
      var c := CountWords(i, j, specp);
      var av := new Word[c + 1];
      var flags0 := if First(WordAt(j)) == ')' then NOFLAGS.(nofork := true) else NOFLAGS;
      var n, lp, rp, lef, rit, flags;
      ghost var r;
      n, lp, rp, lef, rit, flags, r := Fill(i, j, fl, specp, av, flags0);
      if some {
        if lp != 0 && !specp {
          GroupAnyway(r, u, whole, words, i, j, fl);
        } else {
          SimpleAnyway(r, u, whole, words, i, j, fl, specp);
        }
      }
      if lp != 0 && !specp {
        if n != 0 {
          seterr := true;
        }
        if seterr {
          return CshGrammar.Paren(Null, lef, rit, flags);
        }
        assert av[..n] == [];
        GroupRead(r, words, i, j, fl);
        var sub := Syn0(lp, rp, HERE);
        t := CshGrammar.Paren(sub, lef, rit, flags);
        if !seterr {
          ghost var t' := MadeGroup(r, sub, words, i, j, fl);
          Syn3ByWords(t, words, i, j, fl);
        }
      } else {
        if n == 0 {
          seterr := true;
        }
        t := Simple(if seterr then [] else av[..n], lef, rit, flags);
        if !seterr {
          ghost var t' := MadeSimple(r, words, i, j, fl);
          Syn3ByWords(t, words, i, j, fl);
        }
      }
    }

    /** syn2 */
    method Syn2(i: nat, j: nat, fl: Context) returns (t: Command)
      requires i <= j <= |words| && (seterr || Range(words, i, j, 4))
      modifies this`seterr
      ensures !t.Null? && (old(seterr) ==> seterr)
      ensures !seterr ==> OfSyn2(t, words, i, j, fl) && (!fl.perr ==> Good(t, words, i, j, fl))
      ensures !old(seterr) && (exists u :: OfSyn2(u, words, i, j, fl)) ==> !seterr
      ensures !old(seterr) && Begun(words, i, j) ==> !seterr
      decreases j - i, 0, 1
    {
      hide OfSyn2, OfSyn3, PipeAt, Plain, Begun, Args, End, Balanced, Good, LeafBy;
      ghost var some := !seterr && exists u :: OfSyn2(u, words, i, j, fl);
      ghost var u := Null;
      if some {
        u :| OfSyn2(u, words, i, j, fl);
      }
      var p, l := i, 0;
      while p != j
        invariant i <= p <= j && l == Level(words, i, p) && seterr == old(seterr) && (seterr || Scanned(words, i, p, 5))
        decreases j - p
      {
        var w := words[p];
        if First(w) == '(' {
          l := l + 1;
        } else if First(w) == ')' {
          l := l - 1;
        } else if First(w) == '|' && l == 0 {
          var both := p + 1 != j && First(words[p + 1]) == '&';
          var q := if both then p + 2 else p + 1;
          if !seterr {
            CutPipe(words, i, p, q, j);
          }
          if some {
            Cut2(u, words, i, p, j, fl);
            ErrIs(u, words, i, p, j, fl);
            PipeSays(u, words, i, p, j, fl);
          }
          if Begun(words, i, j) {
            PlainCut(words, i, p, j);
            BegunSays(words, p + 1, j);
          }
          var car := Syn3(i, p, fl.(pout := true, perr := fl.perr || both));
          var cdr := Syn2(q, j, fl.(pin := true));
          t := Pipe(car, cdr, NOFLAGS.(err := both));
          if !seterr {
            PipeSays(t, words, i, p, j, fl);
            OfPipe(t, words, i, p, j, fl);
            GoodPipe(t, words, i, j, fl);
          }
          return;
        }
        assert !seterr && l == 0 && CshWords.Paren(w) == 0 ==> Allowed(words, i, p, 4);
        p := p + 1;
      }
      if some {
        RangeParts(words, i, j, 4);
        Cut2(u, words, i, j, j, fl);
      }
      t := Syn3(i, j, fl);
      if !seterr {
        OnlyOne2(t, words, i, j, fl);
        GoodPipe(t, words, i, j, fl);
      }
    }

    /** syn1b */
    method Syn1b(i: nat, j: nat, fl: Context) returns (t: Command)
      requires i <= j <= |words| && (seterr || Range(words, i, j, 3))
      modifies this`seterr
      ensures !t.Null? && (old(seterr) ==> seterr)
      ensures !seterr ==> OfSyn1b(t, words, i, j, fl)
      ensures !old(seterr) && (exists u :: OfSyn1b(u, words, i, j, fl)) ==> !seterr
      ensures !old(seterr) && Begun(words, i, j) ==> !seterr
      decreases j - i, 1
    {
      hide OfSyn1b, OfSyn2, AndAt, Plain, Begun, Args, End, Balanced;
      ghost var some := !seterr && exists u :: OfSyn1b(u, words, i, j, fl);
      ghost var u := Null;
      if some {
        u :| OfSyn1b(u, words, i, j, fl);
      }
      var p, l := i, 0;
      while p != j
        invariant i <= p <= j && l == Level(words, i, p) && seterr == old(seterr) && (seterr || Scanned(words, i, p, 4))
        decreases j - p
      {
        var w := words[p];
        if First(w) == '(' {
          l := l + 1;
        } else if First(w) == ')' {
          l := l - 1;
        } else if IsAndAnd(w) && l == 0 {
          if !seterr {
            RangeBefore(words, i, p, j, 3, 4);
            RangeAfter(words, i, p + 1, j, 3);
          }
          if some {
            Cut1b(u, words, i, p, j, fl);
            AndSays(u, words, i, p, j, fl);
          }
          if Begun(words, i, j) {
            PlainCut(words, i, p, j);
          }
          var car := Syn2(i, p, fl);
          var cdr := Syn1b(p + 1, j, fl);
          t := And(car, cdr, NOFLAGS);
          if !seterr {
            AndSays(t, words, i, p, j, fl);
            OfAnd(t, words, i, p, j, fl);
          }
          return;
        }
        assert !seterr && l == 0 && CshWords.Paren(w) == 0 ==> Allowed(words, i, p, 3);
        p := p + 1;
      }
      if some {
        RangeParts(words, i, j, 3);
        Cut1b(u, words, i, j, j, fl);
      }
      t := Syn2(i, j, fl);
      if !seterr {
        OnlyOne1b(t, words, i, j, fl);
      }
    }

    /** syn1a */
    method Syn1a(i: nat, j: nat, fl: Context) returns (t: Command)
      requires i <= j <= |words| && (seterr || Range(words, i, j, 2))
      modifies this`seterr
      ensures !t.Null? && (old(seterr) ==> seterr)
      ensures !seterr ==> OfSyn1a(t, words, i, j, fl)
      ensures !old(seterr) && (exists u :: OfSyn1a(u, words, i, j, fl)) ==> !seterr
      ensures !old(seterr) && Begun(words, i, j) ==> !seterr
      decreases j - i, 2
    {
      hide OfSyn1a, OfSyn1b, OrAt, Plain, Begun, Args, End, Balanced;
      ghost var some := !seterr && exists u :: OfSyn1a(u, words, i, j, fl);
      ghost var u := Null;
      if some {
        u :| OfSyn1a(u, words, i, j, fl);
      }
      var p, l := i, 0;
      while p != j
        invariant i <= p <= j && l == Level(words, i, p) && seterr == old(seterr) && (seterr || Scanned(words, i, p, 3))
        decreases j - p
      {
        var w := words[p];
        if First(w) == '(' {
          l := l + 1;
        } else if First(w) == ')' {
          l := l - 1;
        } else if IsOrOr(w) && l == 0 {
          if !seterr {
            RangeBefore(words, i, p, j, 2, 3);
            RangeAfter(words, i, p + 1, j, 2);
          }
          if some {
            Cut1a(u, words, i, p, j, fl);
            OrSays(u, words, i, p, j, fl);
          }
          if Begun(words, i, j) {
            PlainCut(words, i, p, j);
          }
          var car := Syn1b(i, p, fl);
          var cdr := Syn1a(p + 1, j, fl);
          t := Or(car, cdr, NOFLAGS);
          if !seterr {
            OrSays(t, words, i, p, j, fl);
            OfOr(t, words, i, p, j, fl);
          }
          return;
        }
        assert !seterr && l == 0 && CshWords.Paren(w) == 0 ==> Allowed(words, i, p, 2);
        p := p + 1;
      }
      if some {
        RangeParts(words, i, j, 2);
        Cut1a(u, words, i, j, j, fl);
      }
      t := Syn1b(i, j, fl);
      if !seterr {
        OnlyOne1a(t, words, i, j, fl);
      }
    }

    /** syn1 */
    method Syn1(i: nat, j: nat, fl: Context) returns (t: Command)
      requires i <= j <= |words| && (seterr || Range(words, i, j, 1))
      modifies this`seterr
      ensures !t.Null? && (old(seterr) ==> seterr)
      ensures !seterr ==> OfSyn1(t, words, i, j, fl)
      ensures !old(seterr) && (exists u :: OfSyn1(u, words, i, j, fl)) ==> !seterr
      ensures !old(seterr) && Begun(words, i, j) ==> !seterr
      decreases j - i, 3
    {
      hide OfSyn1, OfSyn1a, OfRest, OfSyntax, ListAt, Plain, Begun, Args, End, Balanced;
      ghost var some := !seterr && exists u :: OfSyn1(u, words, i, j, fl);
      ghost var u := Null;
      if some {
        u :| OfSyn1(u, words, i, j, fl);
      }
      var p, l := i, 0;
      while p != j
        invariant i <= p <= j && l == Level(words, i, p) && seterr == old(seterr) && (seterr || Scanned(words, i, p, 2))
        decreases j - p
      {
        var w := words[p];
        if First(w) == '(' {
          l := l + 1;
        } else if First(w) == ')' {
          l := l - 1;
        } else if (First(w) == ';' || First(w) == '\n') && l == 0 {
          if !seterr {
            RangeBefore(words, i, p, j, 1, 2);
            RangeAfter(words, i, p + 1, j, 1);
          }
          if some {
            Cut1(u, words, i, p, j, fl);
            ListSays(u, words, i, p, j, fl);
            RestIs(Behind(u), words, p + 1, j, fl);
          }
          if Begun(words, i, j) {
            PlainCut(words, i, p, j);
          }
          var car := Syn1a(i, p, fl);
          var cdr := Syntax(p + 1, j, fl);
          t := if cdr.Null? then List(Null, car, NOFLAGS) else List(car, cdr, NOFLAGS);
          if !seterr {
            RestIs(cdr, words, p + 1, j, fl);
            ListSays(t, words, i, p, j, fl);
            OfList(t, words, i, p, j, fl);
          }
          return;
        }
        assert !seterr && l == 0 && CshWords.Paren(w) == 0 ==> Allowed(words, i, p, 1);
        p := p + 1;
      }
      if some {
        RangeParts(words, i, j, 1);
        Cut1(u, words, i, j, j, fl);
      }
      t := Syn1a(i, j, fl);
      if !seterr {
        OnlyOne1(t, words, i, j, fl);
      }
    }

    /** syn0, for what is to run in the background. */
    method Background(i: nat, p: nat, j: nat, fl: Context) returns (t: Command)
      requires i <= p < j <= |words| && (seterr || Range(words, i, p, 1)) && IsBack(words[p])
      modifies this`seterr
      ensures old(seterr) ==> seterr
      ensures !seterr ==> BackAt(t, words, i, p, j, fl)
      ensures !old(seterr) && (exists u :: BackAt(u, words, i, p, j, fl)) ==> !seterr
      ensures !old(seterr) && Begun(words, i, p) && Plain(words, p, j) ==> !seterr
      decreases j - i, 5, 0
    {
      hide OfSyn1, OfSyntax, BackAt, Plain, Begun;
      ghost var some := !seterr && exists u :: BackAt(u, words, i, p, j, fl);
      if some {
        ghost var u :| BackAt(u, words, i, p, j, fl);
        BackSays(u, words, i, p, j, fl);
        SkipOne(u.cdr, words, p, j, fl);
      }
      var t1 := Syn1(i, p, fl);
      ghost var front := t1;
      if t1.List? || t1.And? || t1.Or? {
        t1 := CshGrammar.Paren(t1, NoFile, NoFile, NOFLAGS.(amp := true));
      } else {
        t1 := WithAmp(t1);
      }
      assert t1 == InBackground(front);
      var t2 := Syntax(p, j, fl);
      t := List(t1, t2, NOFLAGS);
      if !seterr {
        SkipOne(t2, words, p, j, fl);
        BackSays(t, words, i, p, j, fl);
      }
    }

    /** syn0 */
    method Syn0(i: nat, j: nat, fl: Context) returns (t: Command)
      requires i <= j <= |words|
      modifies this`seterr
      ensures old(seterr) ==> seterr
      ensures !seterr ==> OfSyn0(t, words, i, j, fl)
      ensures !old(seterr) && (exists u :: OfSyn0(u, words, i, j, fl)) ==> !seterr
      ensures !old(seterr) && Begun(words, i, j) ==> !seterr
      decreases j - i, 5, 1
    {
      hide OfSyn0, OfSyn1, BackAt, Balanced, Passed, Scanned, Range, Begun, Plain, Level;
      ghost var some := !seterr && exists u :: OfSyn0(u, words, i, j, fl);
      ghost var u := Null;
      if some {
        u :| OfSyn0(u, words, i, j, fl);
        Sound0(u, words, i, j, fl);
      }
      PassedStart(words, i);
      var p, l := i, 0;
      while p != j
        invariant i <= p <= j && (old(seterr) ==> seterr)
        invariant !seterr ==> Passed(words, i, p) && l == Level(words, i, p)
        invariant p < j && IsBack(words[p]) ==> Detached(words, i, p)
        invariant some || Begun(words, i, j) ==> seterr == old(seterr)
        invariant Begun(words, i, j) ==> l == 0
        decreases j - p
      {
        var w := words[p];
        if Begun(words, i, j) {
          PlainAt(words, i, p, j);
        }
        if some {
          Nested(words, i, p, j);
        }
        if First(w) == '(' {
          l := l + 1;
        } else if First(w) == ')' {
          l := l - 1;
          if l < 0 {
            seterr := true;
          }
        } else if First(w) == '&' && l == 0 && !IsAndAnd(w) {
          if !seterr {
            PassedRange(words, i, p);
          }
          if some {
            Cut0(u, words, i, p, j, fl);
          }
          if Begun(words, i, j) {
            PlainCut(words, i, p, j);
            PlainSkip(words, p, j);
          }
          t := Background(i, p, j, fl);
          if !seterr {
            OfBack(t, words, i, p, j, fl);
          }
          return;
        }
        if !seterr {
          PassedMore(words, i, p);
        }
        if (IsBar(w) || First(w) == '>') && p + 1 != j && words[p + 1] == "&" {
          p := p + 1;
          if !seterr {
            PassedMore(words, i, p);
          }
        }
        p := p + 1;
      }
      if l == 0 {
        if !seterr {
          PassedRange(words, i, j);
        }
        if some {
          Cut0(u, words, i, j, j, fl);
        }
        t := Syn1(i, j, fl);
        if !seterr {
          OnlyOne0(t, words, i, j, fl);
        }
        return;
      }
      if some {
        BalancedSays(words, i, j);
      }
      seterr := true;
      return Null;
    }

    /** syntax */
    method Syntax(i: nat, j: nat, fl: Context) returns (t: Command)
      requires i <= j <= |words|
      modifies this`seterr
      ensures old(seterr) ==> seterr
      ensures !seterr ==> OfSyntax(t, words, i, j, fl)
      ensures !old(seterr) && (exists u :: OfSyntax(u, words, i, j, fl)) ==> !seterr
      ensures !old(seterr) && Plain(words, i, j) ==> !seterr
      decreases j - i, if i < j && IsSep(words[i]) then 4 else 6
    {
      hide Plain, Begun, OfSyntax, OfSyn0;
      var p := i;
      while p != j
        invariant i <= p <= j && seterr == old(seterr) && (p > i ==> IsSep(words[i]))
        invariant forall u :: OfSyntax(u, words, i, j, fl) <==> OfSyntax(u, words, p, j, fl)
        invariant Plain(words, i, j) ==> Plain(words, p, j)
        decreases j - p
      {
        SyntaxSays(words, p, j, fl);
        if IsSep(words[p]) {
          PlainSkip(words, p, j);
          p := p + 1;
        } else {
          PlainBegins(words, p, j);
          t := Syn0(p, j, fl);
          return;
        }
      }
      SyntaxEnds(words, j, fl);
      return Null;
    }
  }

  lemma TreeSays(t: Command, ws: seq<Word>)
    requires OfSyntax(t, ws, 0, |ws|, TOP)
    ensures Apart(t, false, false, false, false) && Marks(t) && Quiet(t)
    ensures exists q :: 0 <= q <= |ws| && Seps(ws, 0, q) && Placed(t, ws, q, |ws|)
  {
    hide OfSyntax, Apart, Marks, Quiet, Seps, Placed;
    GoodSyntax(t, ws, 0, |ws|, TOP);
  }

  /** A whole line is accepted exactly when the grammar derives a tree from it, and that is the tree
      that is returned; there is no other. By the words alone: a line is accepted exactly when each of
      the parts between its operators is a command that suits the operators beside it. The shape of
      the tree is that of a line, and its words, from leaf to leaf, are exactly the arguments of the
      line; no end that a pipe takes is redirected, and every node has its operator, and every command
      its arguments and redirections, from a range of words of its own. So every line without
      parentheses and redirections is accepted that has all its operators between words. */
  method Parse(words: seq<Word>) returns (t: Command, ok: bool)
    ensures ok <==> exists u :: OfSyntax(u, words, 0, |words|, TOP)
    ensures ok ==> OfSyntax(t, words, 0, |words|, TOP) && forall u :: OfSyntax(u, words, 0, |words|, TOP) ==> u == t
    ensures ok <==> Accepted(words, Span(0, |words|, false, true))
    ensures ok ==> (t.Null? || IsLine(t)) && Words(t) == Args(words, 0, |words|, START)
    ensures ok ==> Apart(t, false, false, false, false) && Marks(t) && Quiet(t)
    ensures ok ==> exists q :: 0 <= q <= |words| && Seps(words, 0, q) && Placed(t, words, q, |words|)
    ensures Plain(words, 0, |words|) ==> ok
  {
    hide OfSyntax, IsLine, Args, End, Plain, Accepted, Apart, Marks, Quiet, Seps, Placed;
    var p := new Parser(words);
    t := p.Syntax(0, |words|, TOP);
    ok := !p.seterr;
    AcceptedIsDerived(words, Span(0, |words|, false, true));
    assert Free(Span(0, |words|, false, true)) == TOP;
    if ok {
      TreeSays(t, words);
      SoundSyntax(t, words, 0, |words|, TOP);
      ParsedIs(t, words, 0, |words|);
      forall u | OfSyntax(u, words, 0, |words|, TOP) ensures u == t {
        UniqueSyntax(u, t, words, 0, |words|, TOP);
      }
    }
  }
}
