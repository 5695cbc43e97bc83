/** src/bin/csh/parse.c: the grammar is unambiguous, and the operator that each function looks for is
    the one at which every derivation divides the range. */
module CshUnique {
  import opened CshWords
  import opened CshGrammar
  import opened CshRanges
  import opened CshReads

  /** Two places that a scan from i for the same kind of word stops at. */
  lemma SamePlace(ws: seq<Word>, i: nat, p: nat, q: nat, n: nat)
    requires i <= p < |ws| && i <= q < |ws|
    requires Scanned(ws, i, p, n) && Level(ws, i, p) == 0 && !Allowed(ws, i, p, n)
    requires Scanned(ws, i, q, n) && Level(ws, i, q) == 0 && !Allowed(ws, i, q, n)
    ensures p == q
  {
  }

  lemma NoPlace(ws: seq<Word>, i: nat, q: nat, p: nat, n: nat)
    requires i <= q < p <= |ws| && Scanned(ws, i, p, n) && Level(ws, i, q) == 0
    ensures Allowed(ws, i, q, n)
  {
  }

  lemma RangeParts(ws: seq<Word>, i: nat, j: nat, n: nat)
    requires i <= j <= |ws| && Range(ws, i, j, n)
    ensures Scanned(ws, i, j, n) && Level(ws, i, j) == 0
  {
  }

  /** The operators are what a range of the next level may not hold. */
  lemma Operators(ws: seq<Word>, i: nat, p: nat)
    requires i <= p < |ws|
    ensures IsBar(ws[p]) ==> !Allowed(ws, i, p, 5)
    ensures IsAndAnd(ws[p]) ==> !Allowed(ws, i, p, 4)
    ensures IsOrOr(ws[p]) ==> !Allowed(ws, i, p, 3)
    ensures IsSemi(ws[p]) ==> !Allowed(ws, i, p, 2)
    ensures IsBack(ws[p]) && (i < p ==> First(ws[p - 1]) !in ['>', '|']) ==> !Allowed(ws, i, p, 1)
  {
  }

  // Every derivation divides the range where the scan has stopped, at p, or not at all, when the
  // scan has come to its end.

  lemma Cut2(t: Command, ws: seq<Word>, i: nat, p: nat, j: nat, fl: Context)
    requires i <= p <= j <= |ws| && Scanned(ws, i, p, 5) && Level(ws, i, p) == 0 && (p < j ==> IsBar(ws[p])) && OfSyn2(t, ws, i, j, fl)
    ensures if p < j then PipeAt(t, ws, i, p, j, fl) else OfSyn3(t, ws, i, j, fl)
  {
    if OfSyn3(t, ws, i, j, fl) {
      hide *;
      Sound3(t, ws, i, j, fl);
      RangeParts(ws, i, j, 5);
      if p < j {
        NoPlace(ws, i, p, j, 5);
        Operators(ws, i, p);
      }
    } else {
      var q :| i <= q < j && PipeAt(t, ws, i, q, j, fl);
      hide *;
      PipeSays(t, ws, i, q, j, fl);
      Sound3(t.car, ws, i, q, fl.(pout := true, perr := fl.perr || t.flags.err));
      RangeParts(ws, i, q, 5);
      Operators(ws, i, q);
      if p < j {
        Operators(ws, i, p);
        SamePlace(ws, i, p, q, 5);
      } else {
        NoPlace(ws, i, q, p, 5);
      }
    }
  }

  lemma Cut1b(t: Command, ws: seq<Word>, i: nat, p: nat, j: nat, fl: Context)
    requires i <= p <= j <= |ws| && Scanned(ws, i, p, 4) && Level(ws, i, p) == 0 && (p < j ==> IsAndAnd(ws[p])) && OfSyn1b(t, ws, i, j, fl)
    ensures if p < j then AndAt(t, ws, i, p, j, fl) else OfSyn2(t, ws, i, j, fl)
  {
    if OfSyn2(t, ws, i, j, fl) {
      hide *;
      Sound2(t, ws, i, j, fl);
      RangeParts(ws, i, j, 4);
      if p < j {
        NoPlace(ws, i, p, j, 4);
        Operators(ws, i, p);
      }
    } else {
      var q :| i <= q < j && AndAt(t, ws, i, q, j, fl);
      hide *;
      AndSays(t, ws, i, q, j, fl);
      Sound2(t.car, ws, i, q, fl);
      RangeParts(ws, i, q, 4);
      Operators(ws, i, q);
      if p < j {
        Operators(ws, i, p);
        SamePlace(ws, i, p, q, 4);
      } else {
        NoPlace(ws, i, q, p, 4);
      }
    }
  }

  lemma Cut1a(t: Command, ws: seq<Word>, i: nat, p: nat, j: nat, fl: Context)
    requires i <= p <= j <= |ws| && Scanned(ws, i, p, 3) && Level(ws, i, p) == 0 && (p < j ==> IsOrOr(ws[p])) && OfSyn1a(t, ws, i, j, fl)
    ensures if p < j then OrAt(t, ws, i, p, j, fl) else OfSyn1b(t, ws, i, j, fl)
  {
    if OfSyn1b(t, ws, i, j, fl) {
      hide *;
      Sound1b(t, ws, i, j, fl);
      RangeParts(ws, i, j, 3);
      if p < j {
        NoPlace(ws, i, p, j, 3);
        Operators(ws, i, p);
      }
    } else {
      var q :| i <= q < j && OrAt(t, ws, i, q, j, fl);
      hide *;
      OrSays(t, ws, i, q, j, fl);
      Sound1b(t.car, ws, i, q, fl);
      RangeParts(ws, i, q, 3);
      Operators(ws, i, q);
      if p < j {
        Operators(ws, i, p);
        SamePlace(ws, i, p, q, 3);
      } else {
        NoPlace(ws, i, q, p, 3);
      }
    }
  }

  lemma Cut1(t: Command, ws: seq<Word>, i: nat, p: nat, j: nat, fl: Context)
    requires i <= p <= j <= |ws| && Scanned(ws, i, p, 2) && Level(ws, i, p) == 0 && (p < j ==> IsSemi(ws[p])) && OfSyn1(t, ws, i, j, fl)
    ensures if p < j then ListAt(t, ws, i, p, j, fl) else OfSyn1a(t, ws, i, j, fl)
  {
    if OfSyn1a(t, ws, i, j, fl) {
      hide *;
      Sound1a(t, ws, i, j, fl);
      RangeParts(ws, i, j, 2);
      if p < j {
        NoPlace(ws, i, p, j, 2);
        Operators(ws, i, p);
      }
    } else {
      var q :| i <= q < j && ListAt(t, ws, i, q, j, fl);
      hide *;
      ListSays(t, ws, i, q, j, fl);
      Sound1a(Front(t), ws, i, q, fl);
      RangeParts(ws, i, q, 2);
      Operators(ws, i, q);
      if p < j {
        Operators(ws, i, p);
        SamePlace(ws, i, p, q, 2);
      } else {
        NoPlace(ws, i, q, p, 2);
      }
    }
  }

  /** An & at p puts what is in front of it into the background unless it belongs to |& or >&. */
  predicate Detached(ws: seq<Word>, i: nat, p: nat)
    requires p < |ws|
  {
    IsBack(ws[p]) && (i < p ==> !(ws[p] == "&" && (First(ws[p - 1]) == '>' || IsBar(ws[p - 1]))))
  }

  lemma DetachedNot(ws: seq<Word>, i: nat, p: nat)
    requires i <= p < |ws| && IsBack(ws[p])
    ensures Detached(ws, i, p) <==> !Allowed(ws, i, p, 1)
    ensures Closed(ws, i, p) ==> Detached(ws, i, p)
  {
  }

  lemma Cut0(t: Command, ws: seq<Word>, i: nat, p: nat, j: nat, fl: Context)
    requires i <= p <= j <= |ws| && Scanned(ws, i, p, 1) && Level(ws, i, p) == 0 && (p < j ==> Detached(ws, i, p)) && OfSyn0(t, ws, i, j, fl)
    ensures if p < j then BackAt(t, ws, i, p, j, fl) else OfSyn1(t, ws, i, j, fl)
  {
    if OfSyn1(t, ws, i, j, fl) {
      hide *;
      Sound1(t, ws, i, j, fl);
      RangeParts(ws, i, j, 1);
      if p < j {
        NoPlace(ws, i, p, j, 1);
        DetachedIs(ws, i, p);
      }
    } else {
      var q :| i <= q < j && BackAt(t, ws, i, q, j, fl);
      hide *;
      BackSays(t, ws, i, q, j, fl);
      var t1 :| OfSyn1(t1, ws, i, q, fl) && t.car == InBackground(t1);
      Sound1(t1, ws, i, q, fl);
      RangeParts(ws, i, q, 1);
      DetachedNot(ws, i, q);
      if p < j {
        DetachedIs(ws, i, p);
        SamePlace(ws, i, p, q, 1);
      } else {
        NoPlace(ws, i, q, p, 1);
      }
    }
  }

  lemma DetachedIs(ws: seq<Word>, i: nat, p: nat)
    requires i <= p < |ws| && Detached(ws, i, p)
    ensures IsBack(ws[p]) && !Allowed(ws, i, p, 1)
  {
  }

  /** When no & puts anything into the background, what follows a ; is what syntax makes of it. */
  lemma RestIs(t: Command, ws: seq<Word>, i: nat, j: nat, fl: Context)
    requires i <= j <= |ws| && Range(ws, i, j, 1)
    ensures OfSyntax(t, ws, i, j, fl) <==> OfRest(t, ws, i, j, fl)
    decreases j - i
  {
    if i < j {
      assert Level(ws, i, i) == 0 && Allowed(ws, i, i, 1);
      if IsSep(ws[i]) {
        RangeAfter(ws, i, i + 1, j, 1);
        RestIs(t, ws, i + 1, j, fl);
      } else if OfSyn0(t, ws, i, j, fl) {
        hide *;
        RangeParts(ws, i, j, 1);
        Cut0(t, ws, i, j, j, fl);
      }
    }
  }

  // There is one tree at most

  lemma UniqueLeaf(t: Command, u: Command, items: seq<Item>, ws: seq<Word>, i: nat, j: nat, fl: Context)
    requires i <= j <= |ws| && Spelled(items, ws, i, j) && LeafOf(t, items, ws, i, j, fl) && LeafOf(u, items, ws, i, j, fl)
    ensures t == u
    decreases j - i, 0, 0
  {
    hide *;
    LeafSays(t, items, ws, i, j, fl);
    LeafSays(u, items, ws, i, j, fl);
    if !SpecialFrom(ws, i, j) && Blocks(items) != [] {
      var b := Blocks(items)[0];
      Unique0(t.sub, u.sub, ws, b.from + 1, b.from + b.n - 1, HERE);
    }
  }

  lemma Unique3(t: Command, u: Command, ws: seq<Word>, i: nat, j: nat, fl: Context)
    requires i <= j <= |ws| && OfSyn3(t, ws, i, j, fl) && OfSyn3(u, ws, i, j, fl)
    ensures t == u
    decreases j - i, 0, 1
  {
    var a :| Spelled(a, ws, i, j) && LeafOf(t, a, ws, i, j, fl);
    var b :| Spelled(b, ws, i, j) && LeafOf(u, b, ws, i, j, fl);
    hide *;
    SameItems(a, b, ws, i, j);
    UniqueLeaf(t, u, a, ws, i, j, fl);
  }

  /** Whether a pipe takes the error output as well can be told from the next word. */
  lemma ErrIs(t: Command, ws: seq<Word>, i: nat, p: nat, j: nat, fl: Context)
    requires i <= p < j <= |ws| && PipeAt(t, ws, i, p, j, fl)
    ensures t.Pipe? && t.flags.err == (p + 1 < j && First(ws[p + 1]) == '&')
  {
    if !t.flags.err {
      Sound2(t.cdr, ws, p + 1, j, fl.(pin := true));
      assert Level(ws, p + 1, p + 1) == 0 && Allowed(ws, p + 1, p + 1, 4);
    }
  }

  lemma Unique2(t: Command, u: Command, ws: seq<Word>, i: nat, j: nat, fl: Context)
    requires i <= j <= |ws| && OfSyn2(t, ws, i, j, fl) && OfSyn2(u, ws, i, j, fl)
    ensures t == u
    decreases j - i, 2
  {
    if OfSyn3(t, ws, i, j, fl) {
      hide *;
      Sound3(t, ws, i, j, fl);
      RangeParts(ws, i, j, 5);
      Cut2(u, ws, i, j, j, fl);
      Unique3(t, u, ws, i, j, fl);
    } else {
      var p :| i <= p < j && PipeAt(t, ws, i, p, j, fl);
      hide *;
      PipeSays(t, ws, i, p, j, fl);
      Sound3(t.car, ws, i, p, fl.(pout := true, perr := fl.perr || t.flags.err));
      RangeParts(ws, i, p, 5);
      Cut2(u, ws, i, p, j, fl);
      PipeSays(u, ws, i, p, j, fl);
      ErrIs(t, ws, i, p, j, fl);
      ErrIs(u, ws, i, p, j, fl);
      Unique3(t.car, u.car, ws, i, p, fl.(pout := true, perr := fl.perr || t.flags.err));
      Unique2(t.cdr, u.cdr, ws, if t.flags.err then p + 2 else p + 1, j, fl.(pin := true));
    }
  }

  lemma Unique1b(t: Command, u: Command, ws: seq<Word>, i: nat, j: nat, fl: Context)
    requires i <= j <= |ws| && OfSyn1b(t, ws, i, j, fl) && OfSyn1b(u, ws, i, j, fl)
    ensures t == u
    decreases j - i, 4
  {
    if OfSyn2(t, ws, i, j, fl) {
      hide *;
      Sound2(t, ws, i, j, fl);
      RangeParts(ws, i, j, 4);
      Cut1b(u, ws, i, j, j, fl);
      Unique2(t, u, ws, i, j, fl);
    } else {
      var p :| i <= p < j && AndAt(t, ws, i, p, j, fl);
      hide *;
      AndSays(t, ws, i, p, j, fl);
      Sound2(t.car, ws, i, p, fl);
      RangeParts(ws, i, p, 4);
      Cut1b(u, ws, i, p, j, fl);
      AndSays(u, ws, i, p, j, fl);
      Unique2(t.car, u.car, ws, i, p, fl);
      Unique1b(t.cdr, u.cdr, ws, p + 1, j, fl);
    }
  }

  lemma Unique1a(t: Command, u: Command, ws: seq<Word>, i: nat, j: nat, fl: Context)
    requires i <= j <= |ws| && OfSyn1a(t, ws, i, j, fl) && OfSyn1a(u, ws, i, j, fl)
    ensures t == u
    decreases j - i, 6
  {
    if OfSyn1b(t, ws, i, j, fl) {
      hide *;
      Sound1b(t, ws, i, j, fl);
      RangeParts(ws, i, j, 3);
      Cut1a(u, ws, i, j, j, fl);
      Unique1b(t, u, ws, i, j, fl);
    } else {
      var p :| i <= p < j && OrAt(t, ws, i, p, j, fl);
      hide *;
      OrSays(t, ws, i, p, j, fl);
      Sound1b(t.car, ws, i, p, fl);
      RangeParts(ws, i, p, 3);
      Cut1a(u, ws, i, p, j, fl);
      OrSays(u, ws, i, p, j, fl);
      Unique1b(t.car, u.car, ws, i, p, fl);
      Unique1a(t.cdr, u.cdr, ws, p + 1, j, fl);
    }
  }

  /** A list is known by the command in front of its ; and by what follows. */
  lemma SameList(t: Command, u: Command)
    requires t.List? && u.List? && t.flags == u.flags && Front(t) == Front(u) && Behind(t) == Behind(u)
    requires !Front(t).Null? && (!t.car.Null? ==> !t.cdr.Null?) && (!u.car.Null? ==> !u.cdr.Null?)
    ensures t == u
  {
  }

  lemma NotNull(t: Command)
    requires IsOr(t)
    ensures !t.Null?
  {
  }

  lemma Unique1(t: Command, u: Command, ws: seq<Word>, i: nat, j: nat, fl: Context)
    requires i <= j <= |ws| && OfSyn1(t, ws, i, j, fl) && OfSyn1(u, ws, i, j, fl)
    ensures t == u
    decreases j - i, 8
  {
    if OfSyn1a(t, ws, i, j, fl) {
      hide *;
      Sound1a(t, ws, i, j, fl);
      RangeParts(ws, i, j, 2);
      Cut1(u, ws, i, j, j, fl);
      Unique1a(t, u, ws, i, j, fl);
    } else {
      var p :| i <= p < j && ListAt(t, ws, i, p, j, fl);
      hide *;
      ListSays(t, ws, i, p, j, fl);
      Sound1a(Front(t), ws, i, p, fl);
      RangeParts(ws, i, p, 2);
      Cut1(u, ws, i, p, j, fl);
      ListSays(u, ws, i, p, j, fl);
      Unique1a(Front(t), Front(u), ws, i, p, fl);
      UniqueRest(Behind(t), Behind(u), ws, p + 1, j, fl);
      NotNull(Front(t));
      SameList(t, u);
    }
  }

  lemma UniqueRest(t: Command, u: Command, ws: seq<Word>, i: nat, j: nat, fl: Context)
    requires i <= j <= |ws| && OfRest(t, ws, i, j, fl) && OfRest(u, ws, i, j, fl)
    ensures t == u
    decreases j - i, 9
  {
    if i < j && IsSep(ws[i]) {
      UniqueRest(t, u, ws, i + 1, j, fl);
    } else if i < j {
      Unique1(t, u, ws, i, j, fl);
    }
  }

  lemma Unique0(t: Command, u: Command, ws: seq<Word>, i: nat, j: nat, fl: Context)
    requires i <= j <= |ws| && OfSyn0(t, ws, i, j, fl) && OfSyn0(u, ws, i, j, fl)
    ensures t == u
    decreases j - i, 11
  {
    if OfSyn1(t, ws, i, j, fl) {
      hide *;
      Sound1(t, ws, i, j, fl);
      RangeParts(ws, i, j, 1);
      Cut0(u, ws, i, j, j, fl);
      Unique1(t, u, ws, i, j, fl);
    } else {
      var p :| i <= p < j && BackAt(t, ws, i, p, j, fl);
      hide *;
      BackSays(t, ws, i, p, j, fl);
      var t1 :| OfSyn1(t1, ws, i, p, fl) && t.car == InBackground(t1);
      Sound1(t1, ws, i, p, fl);
      RangeParts(ws, i, p, 1);
      DetachedNot(ws, i, p);
      Cut0(u, ws, i, p, j, fl);
      BackSays(u, ws, i, p, j, fl);
      var u1 :| OfSyn1(u1, ws, i, p, fl) && u.car == InBackground(u1);
      Unique1(t1, u1, ws, i, p, fl);
      UniqueSyntax(t.cdr, u.cdr, ws, p + 1, j, fl);
    }
  }

  /** The words of a line are those of one tree at most. */
  lemma UniqueSyntax(t: Command, u: Command, ws: seq<Word>, i: nat, j: nat, fl: Context)
    requires i <= j <= |ws| && OfSyntax(t, ws, i, j, fl) && OfSyntax(u, ws, i, j, fl)
    ensures t == u
    decreases j - i, 12
  {
    if i < j && IsSep(ws[i]) {
      UniqueSyntax(t, u, ws, i + 1, j, fl);
    } else if i < j {
      Unique0(t, u, ws, i, j, fl);
    }
  }
}
