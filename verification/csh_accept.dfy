/** src/bin/csh/parse.c: which lines are accepted, told by their words alone: cut at its operators, a
    line is a row of commands, and each must suit the operators beside it. */
module CshAccept {
  import opened CshWords
  import opened CshGrammar
  import opened CshRanges
  import opened CshReads
  import opened CshLeaves

  /** A line, or the words of a group; a line may begin with separators. */
  datatype Span = Span(i: nat, j: nat, here: bool, line: bool)

  /** The & of >& and of |&. */
  predicate IsJoined(ws: seq<Word>, i: nat, k: nat)
    requires k < |ws|
  {
    ws[k] == "&" && k > i && (First(ws[k - 1]) == '>' || IsBar(ws[k - 1]))
  }

  /** An operator or a separator. */
  ghost predicate OpAt(ws: seq<Word>, i: nat, k: nat)
    requires k < |ws|
  {
    Level(ws, i, k) == 0 && (First(ws[k]) in ['|', ';', '\n'] || (First(ws[k]) == '&' && !IsJoined(ws, i, k)))
  }

  /** Behind the operator at k. */
  function Past(ws: seq<Word>, k: nat, j: nat): nat
    requires k < j <= |ws|
  {
    if IsBar(ws[k]) && k + 1 < j && ws[k + 1] == "&" then k + 2 else k + 1
  }

  ghost predicate Begins(ws: seq<Word>, g: Span, c: nat)
    requires g.j <= |ws|
  {
    c == g.i || exists k :: g.i <= k < c && k < g.j && OpAt(ws, g.i, k) && c == Past(ws, k, g.j)
  }

  ghost predicate Ends(ws: seq<Word>, g: Span, d: nat)
    requires g.j <= |ws|
  {
    d == g.j || (d < g.j && OpAt(ws, g.i, d))
  }

  /** From one operator to the next. */
  ghost predicate Between(ws: seq<Word>, g: Span, c: nat, d: nat)
    requires g.j <= |ws|
  {
    g.i <= c <= d <= g.j && Begins(ws, g, c) && Ends(ws, g, d) && forall k :: c <= k < d ==> !OpAt(ws, g.i, k)
  }

  /** Where separators are skipped: at the start of a line and behind a separator, but not behind an
      && that has a command in front of it. */
  ghost predicate MaySkip(ws: seq<Word>, g: Span, c: nat)
    requires g.j <= |ws|
    decreases c
  {
    if c <= g.i then g.line && c == g.i
    else c <= g.j && OpAt(ws, g.i, c - 1) && IsSep(ws[c - 1]) && (IsAndAnd(ws[c - 1]) ==> MaySkip(ws, g, c - 1))
  }

  predicate BarBefore(ws: seq<Word>, i: nat, c: nat)
    requires c <= |ws|
  {
    c > i && (IsBar(ws[c - 1]) || (c > i + 1 && ws[c - 1] == "&" && IsBar(ws[c - 2])))
  }

  predicate BarAfter(ws: seq<Word>, g: Span, d: nat)
    requires g.j <= |ws|
  {
    d < g.j && IsBar(ws[d])
  }

  /** What is beside the words from c to d. */
  function Around(ws: seq<Word>, g: Span, c: nat, d: nat): Context
    requires c <= d <= g.j <= |ws|
  {
    Context(g.here, BarBefore(ws, g.i, c), BarAfter(ws, g, d), BarAfter(ws, g, d) && d + 1 < g.j && ws[d + 1] == "&")
  }

  /** The words from c to d are a command that suits what is beside it, or there are none where
      separators are skipped. */
  ghost predicate PartOk(ws: seq<Word>, g: Span, c: nat, d: nat)
    requires g.i <= c <= d <= g.j <= |ws|
    decreases g.j - g.i, 0
  {
    if c == d then MaySkip(ws, g, c) && (c == g.j || IsSep(ws[c]))
    else
      && Tidy(ws, c, d) && Suits(ws, c, d, Around(ws, g, c, d), SpecialFrom(ws, c, d))
      && if SpecialFrom(ws, c, d) || !Some(ws, c, d, '(') then Args(ws, c, d, START) != []
         else exists a: nat, b: nat :: c <= a < b < d && GroupAt(ws, c, d, a, b) && Accepted(ws, Span(a + 1, b, true, false))
  }

  ghost predicate Accepted(ws: seq<Word>, g: Span)
    requires g.i <= g.j <= |ws|
    decreases g.j - g.i, 1
  {
    Balanced(ws, g.i, g.j) && forall c, d {:trigger Between(ws, g, c, d)} :: g.i <= c <= d <= g.j && Between(ws, g, c, d) ==> PartOk(ws, g, c, d)
  }

  // Parts of a line

  ghost predicate Parts(ws: seq<Word>, g: Span, i: nat, j: nat)
    requires g.i <= i <= j <= g.j <= |ws|
  {
    forall c, d {:trigger Between(ws, g, c, d)} :: i <= c <= d <= j && Between(ws, g, c, d) ==> PartOk(ws, g, c, d)
  }

  /** Within g, outside parentheses. */
  ghost predicate Inner(ws: seq<Word>, g: Span, i: nat, j: nat) {
    g.i <= i <= j <= g.j <= |ws| && Level(ws, g.i, i) == 0 && Begins(ws, g, i) && Ends(ws, g, j)
  }

  lemma Rebase(ws: seq<Word>, i0: nat, i: nat, k: nat)
    requires i0 <= i <= k <= |ws| && Level(ws, i0, i) == 0
    ensures Level(ws, i0, k) == Level(ws, i, k)
  {
    LevelSplit(ws, i0, i, k);
  }

  lemma NoOps(ws: seq<Word>, g: Span, i: nat, j: nat)
    requires g.i <= i <= j <= |ws| && Tidy(ws, i, j) && Level(ws, g.i, i) == 0
    ensures forall k :: i <= k < j ==> !OpAt(ws, g.i, k)
    ensures Level(ws, g.i, j) == 0
  {
    Rebase(ws, g.i, i, j);
    forall k | i <= k < j ensures !OpAt(ws, g.i, k) {
      Rebase(ws, g.i, i, k);
      assert Level(ws, i, k) == 0 ==> Fine(ws, i, j, k);
    }
  }

  /** Behind a bar with & nothing begins between them. */
  lemma BeginsOnce(ws: seq<Word>, g: Span, i: nat, k: nat)
    requires g.i <= k && k + 1 == i <= g.j <= |ws| && OpAt(ws, g.i, k) && Begins(ws, g, i)
    ensures Past(ws, k, g.j) == i
  {
    hide Level;
    var k' :| g.i <= k' < i && k' < g.j && OpAt(ws, g.i, k') && i == Past(ws, k', g.j);
  }

  /** Without operators there is one part. */
  lemma OnePart(ws: seq<Word>, g: Span, i: nat, j: nat)
    requires Inner(ws, g, i, j) && (forall k :: i <= k < j ==> !OpAt(ws, g.i, k)) && PartOk(ws, g, i, j)
    ensures Parts(ws, g, i, j)
  {
    hide PartOk, OpAt;
    forall c, d | i <= c <= d <= j && Between(ws, g, c, d) ensures c == i && d == j {
      if c > i {
        var k :| g.i <= k < c && k < g.j && OpAt(ws, g.i, k) && c == Past(ws, k, g.j);
        assert k + 1 == i;
        BeginsOnce(ws, g, i, k);
      }
    }
  }

  lemma PartsJoin(ws: seq<Word>, g: Span, i: nat, p: nat, q: nat, j: nat)
    requires g.i <= i <= p < q <= j <= g.j <= |ws| && OpAt(ws, g.i, p) && q == Past(ws, p, g.j) && Parts(ws, g, i, p) && Parts(ws, g, q, j)
    ensures Parts(ws, g, i, j)
  {
    hide PartOk;
    forall c, d | i <= c <= d <= j && Between(ws, g, c, d) ensures d <= p || c >= q {
      if p < d && c < q {
        assert c == p + 1;
        BeginsOnce(ws, g, c, p);
      }
    }
  }

  lemma PartsSay(ws: seq<Word>, g: Span, i: nat, j: nat, i': nat, j': nat)
    requires g.i <= i <= i' <= j' <= j <= g.j <= |ws| && Parts(ws, g, i, j)
    ensures Parts(ws, g, i', j') && (Between(ws, g, i', j') ==> PartOk(ws, g, i', j'))
  {
    hide PartOk, Between;
  }

  lemma EmptyPart(ws: seq<Word>, g: Span, i: nat)
    requires g.i <= i <= g.j <= |ws| && MaySkip(ws, g, i) && (i == g.j || IsSep(ws[i]))
    ensures Parts(ws, g, i, i)
  {
  }

  // Where separators are skipped

  lemma SkipIsOp(ws: seq<Word>, g: Span, i: nat)
    requires g.i <= i < g.j <= |ws| && MaySkip(ws, g, i) && IsSep(ws[i]) && Level(ws, g.i, i) == 0
    ensures OpAt(ws, g.i, i) && Past(ws, i, g.j) == i + 1 && MaySkip(ws, g, i + 1) && Level(ws, g.i, i + 1) == 0 && Begins(ws, g, i + 1)
  {
  }

  // An operator, and the place behind it

  lemma PastLevel(ws: seq<Word>, g: Span, p: nat)
    requires g.i <= p < g.j <= |ws| && OpAt(ws, g.i, p)
    ensures Level(ws, g.i, Past(ws, p, g.j)) == 0 && p < Past(ws, p, g.j) <= g.j
  {
    assert Level(ws, g.i, p + 1) == Level(ws, g.i, p) + CshWords.Paren(ws[p]);
    if Past(ws, p, g.j) == p + 2 {
      assert Level(ws, g.i, p + 2) == Level(ws, g.i, p + 1) + CshWords.Paren(ws[p + 1]);
    }
  }

  lemma PastBar(ws: seq<Word>, g: Span, p: nat)
    requires g.i <= p < g.j <= |ws| && OpAt(ws, g.i, p)
    ensures !IsBar(ws[p]) ==> Past(ws, p, g.j) == p + 1 && !BarBefore(ws, g.i, p + 1)
    ensures IsBar(ws[p]) ==> BarBefore(ws, g.i, Past(ws, p, g.j))
  {
    hide Level;
  }

  lemma BehindOp(ws: seq<Word>, g: Span, p: nat)
    requires g.i <= p < g.j <= |ws| && OpAt(ws, g.i, p)
    ensures var q := Past(ws, p, g.j); Begins(ws, g, q) && Level(ws, g.i, q) == 0 && p < q <= g.j
    ensures !IsBar(ws[p]) ==> Past(ws, p, g.j) == p + 1 && !BarBefore(ws, g.i, p + 1)
    ensures IsBar(ws[p]) ==> BarBefore(ws, g.i, Past(ws, p, g.j))
    ensures IsSep(ws[p]) && !IsAndAnd(ws[p]) ==> MaySkip(ws, g, p + 1)
  {
    PastLevel(ws, g, p);
    PastBar(ws, g, p);
    hide OpAt, Level, Past, IsBar, BarBefore, IsSep, IsAndAnd;
  }

  // What the grammar derives is accepted

  function Free(g: Span): Context {
    Context(g.here, false, false, false)
  }

  lemma PartIs(ws: seq<Word>, g: Span, c: nat, d: nat)
    requires g.i <= c < d <= g.j <= |ws|
    ensures PartOk(ws, g, c, d) <==>
      && Tidy(ws, c, d) && Suits(ws, c, d, Around(ws, g, c, d), SpecialFrom(ws, c, d))
      && if SpecialFrom(ws, c, d) || !Some(ws, c, d, '(') then Args(ws, c, d, START) != []
         else exists a: nat, b: nat :: c <= a < b < d && GroupAt(ws, c, d, a, b) && Accepted(ws, Span(a + 1, b, true, false))
  {
  }

  lemma InnerSays(ws: seq<Word>, g: Span, i: nat, j: nat)
    ensures Inner(ws, g, i, j) <==> g.i <= i <= j <= g.j <= |ws| && Level(ws, g.i, i) == 0 && Begins(ws, g, i) && Ends(ws, g, j)
  {
  }

  lemma EndsSays(ws: seq<Word>, g: Span, d: nat)
    requires d < g.j <= |ws| && OpAt(ws, g.i, d)
    ensures Ends(ws, g, d)
  {
  }

  lemma To3(t: Command, ws: seq<Word>, g: Span, i: nat, j: nat)
    requires Inner(ws, g, i, j) && OfSyn3(t, ws, i, j, Around(ws, g, i, j))
    ensures Parts(ws, g, i, j)
    decreases g.j - g.i, j - i, 0
  {
    hide *;
    InnerSays(ws, g, i, j);
    Syn3ByWords(t, ws, i, j, Around(ws, g, i, j));
    LeafBySays(t, ws, i, j, Around(ws, g, i, j));
    NoOps(ws, g, i, j);
    Sound3(t, ws, i, j, Around(ws, g, i, j));
    ClosedSays(ws, i, j);
    PartIs(ws, g, i, j);
    if !(SpecialFrom(ws, i, j) || !Some(ws, i, j, '(')) {
      var a: nat, b: nat :| i <= a < b < j && GroupAt(ws, i, j, a, b) && OfSyn0(t.sub, ws, a + 1, b, HERE);
      FreeIs(Span(a + 1, b, true, false));
      ToGroup(t.sub, ws, Span(a + 1, b, true, false));
    }
    OnePart(ws, g, i, j);
  }

  lemma ClosedSays(ws: seq<Word>, i: nat, j: nat)
    requires j <= |ws| && Closed(ws, i, j)
    ensures i < j && First(ws[j - 1]) !in ['>', '|']
  {
  }

  lemma FreeIs(g: Span)
    ensures Free(g) == Context(g.here, false, false, false) && (g.here ==> Free(g) == HERE)
  {
  }

  lemma AroundFree(ws: seq<Word>, g: Span, c: nat, d: nat)
    requires c <= d <= g.j <= |ws|
    ensures !BarAfter(ws, g, d) ==> Around(ws, g, c, d) == Free(g).(pin := BarBefore(ws, g.i, c))
    ensures BarAfter(ws, g, d) ==>
      Around(ws, g, c, d) == Free(g).(pin := BarBefore(ws, g.i, c), pout := true, perr := d + 1 < g.j && ws[d + 1] == "&")
  {
  }

  /** The operator that a grammar rule names. */
  lemma OpIs(ws: seq<Word>, i0: nat, i: nat, p: nat)
    requires i0 <= i <= p < |ws| && Level(ws, i0, i) == 0 && Level(ws, i, p) == 0
    ensures IsBar(ws[p]) || IsAndAnd(ws[p]) || IsOrOr(ws[p]) || IsSemi(ws[p]) ==> OpAt(ws, i0, p)
    ensures IsBack(ws[p]) && i < p && First(ws[p - 1]) !in ['>', '|'] ==> OpAt(ws, i0, p)
    ensures IsAndAnd(ws[p]) || IsOrOr(ws[p]) || IsSemi(ws[p]) || IsBack(ws[p]) ==> !IsBar(ws[p])
  {
    Rebase(ws, i0, i, p);
  }

  lemma RangeSays(ws: seq<Word>, i: nat, j: nat, n: nat)
    requires i <= j <= |ws| && Range(ws, i, j, n)
    ensures Balanced(ws, i, j) && Level(ws, i, j) == 0 && (i < j && First(ws[i]) == '&' ==> IsAndAnd(ws[i]))
  {
    assert i < j ==> Level(ws, i, i) == 0 && Allowed(ws, i, i, n);
  }

  lemma To2(t: Command, ws: seq<Word>, g: Span, i: nat, j: nat)
    requires Inner(ws, g, i, j) && OfSyn2(t, ws, i, j, Free(g).(pin := BarBefore(ws, g.i, i))) && !BarAfter(ws, g, j)
    ensures Parts(ws, g, i, j)
    decreases g.j - g.i, j - i, 1
  {
    var fl := Free(g).(pin := BarBefore(ws, g.i, i));
    if OfSyn3(t, ws, i, j, fl) {
      AroundFree(ws, g, i, j);
      To3(t, ws, g, i, j);
    } else {
      var p :| i <= p < j && PipeAt(t, ws, i, p, j, fl);
      hide *;
      FreeIs(g);
      InnerSays(ws, g, i, j);
      PipeSays(t, ws, i, p, j, fl);
      Sound3(t.car, ws, i, p, fl.(pout := true, perr := fl.perr || t.flags.err));
      RangeSays(ws, i, p, 5);
      OpIs(ws, g.i, i, p);
      var q := if t.flags.err then p + 2 else p + 1;
      Sound2(t.cdr, ws, q, j, fl.(pin := true));
      RangeSays(ws, q, j, 4);
      ClosedSays(ws, q, j);
      PastIs(ws, g, p, t.flags.err);
      BehindOp(ws, g, p);
      EndsSays(ws, g, p);
      InnerSays(ws, g, i, p);
      InnerSays(ws, g, q, j);
      AroundFree(ws, g, i, p);
      To3(t.car, ws, g, i, p);
      To2(t.cdr, ws, g, q, j);
      PartsJoin(ws, g, i, p, q, j);
    }
  }

  lemma PastIs(ws: seq<Word>, g: Span, p: nat, err: bool)
    requires p + 1 < g.j <= |ws| && IsBar(ws[p]) && (if err then ws[p + 1] == "&" else First(ws[p + 1]) == '&' ==> IsAndAnd(ws[p + 1]))
    ensures Past(ws, p, g.j) == (if err then p + 2 else p + 1) && BarAfter(ws, g, p) && (ws[p + 1] == "&") == err
  {
  }

  /** The two sides of an operator that is no bar. */
  lemma Sides(ws: seq<Word>, g: Span, i: nat, p: nat, j: nat)
    requires Inner(ws, g, i, j) && i <= p < j && OpAt(ws, g.i, p) && !IsBar(ws[p])
    ensures Inner(ws, g, i, p) && Inner(ws, g, p + 1, j) && !BarAfter(ws, g, p) && Past(ws, p, g.j) == p + 1
    ensures !BarBefore(ws, g.i, p + 1) && (IsSep(ws[p]) && !IsAndAnd(ws[p]) ==> MaySkip(ws, g, p + 1))
  {
    BehindOp(ws, g, p);
    EndsSays(ws, g, p);
    hide OpAt, Level, Begins, Ends, BarBefore, MaySkip, Past, IsBar;
  }

  /** Neither side of the words from i to j is a bar. */
  ghost predicate Alone(ws: seq<Word>, g: Span, i: nat, j: nat) {
    Inner(ws, g, i, j) && !BarBefore(ws, g.i, i) && !BarAfter(ws, g, j)
  }

  lemma AloneSays(ws: seq<Word>, g: Span, i: nat, j: nat)
    ensures Alone(ws, g, i, j) <==> Inner(ws, g, i, j) && !BarBefore(ws, g.i, i) && !BarAfter(ws, g, j)
    ensures Alone(ws, g, i, j) ==> Free(g) == Free(g).(pin := BarBefore(ws, g.i, i))
    ensures Alone(ws, g, i, j) ==> Level(ws, g.i, i) == 0 && g.i <= i <= j <= g.j <= |ws|
  {
  }

  lemma AloneSides(ws: seq<Word>, g: Span, i: nat, p: nat, j: nat)
    requires Alone(ws, g, i, j) && i <= p < j && OpAt(ws, g.i, p) && !IsBar(ws[p])
    ensures Alone(ws, g, i, p) && Alone(ws, g, p + 1, j) && Past(ws, p, g.j) == p + 1
    ensures IsSep(ws[p]) && !IsAndAnd(ws[p]) ==> MaySkip(ws, g, p + 1)
  {
    hide *;
    AloneSays(ws, g, i, j);
    Sides(ws, g, i, p, j);
    AloneSays(ws, g, i, p);
    AloneSays(ws, g, p + 1, j);
  }

  lemma To1b(t: Command, ws: seq<Word>, g: Span, i: nat, j: nat)
    requires Alone(ws, g, i, j) && OfSyn1b(t, ws, i, j, Free(g))
    ensures Parts(ws, g, i, j)
    decreases g.j - g.i, j - i, 2
  {
    AloneSays(ws, g, i, j);
    if OfSyn2(t, ws, i, j, Free(g)) {
      To2(t, ws, g, i, j);
    } else {
      var p :| i <= p < j && AndAt(t, ws, i, p, j, Free(g));
      hide *;
      AndSays(t, ws, i, p, j, Free(g));
      Sound2(t.car, ws, i, p, Free(g));
      RangeSays(ws, i, p, 4);
      OpIs(ws, g.i, i, p);
      AloneSides(ws, g, i, p, j);
      AloneSays(ws, g, i, p);
      To2(t.car, ws, g, i, p);
      To1b(t.cdr, ws, g, p + 1, j);
      PartsJoin(ws, g, i, p, p + 1, j);
    }
  }

  lemma To1a(t: Command, ws: seq<Word>, g: Span, i: nat, j: nat)
    requires Alone(ws, g, i, j) && OfSyn1a(t, ws, i, j, Free(g))
    ensures Parts(ws, g, i, j)
    decreases g.j - g.i, j - i, 3
  {
    AloneSays(ws, g, i, j);
    if OfSyn1b(t, ws, i, j, Free(g)) {
      To1b(t, ws, g, i, j);
    } else {
      var p :| i <= p < j && OrAt(t, ws, i, p, j, Free(g));
      hide *;
      OrSays(t, ws, i, p, j, Free(g));
      Sound1b(t.car, ws, i, p, Free(g));
      RangeSays(ws, i, p, 3);
      OpIs(ws, g.i, i, p);
      AloneSides(ws, g, i, p, j);
      To1b(t.car, ws, g, i, p);
      To1a(t.cdr, ws, g, p + 1, j);
      PartsJoin(ws, g, i, p, p + 1, j);
    }
  }

  lemma To1(t: Command, ws: seq<Word>, g: Span, i: nat, j: nat)
    requires Alone(ws, g, i, j) && OfSyn1(t, ws, i, j, Free(g)) && (j == g.j || IsSep(ws[j]))
    ensures Parts(ws, g, i, j)
    decreases g.j - g.i, j - i, 4
  {
    AloneSays(ws, g, i, j);
    if OfSyn1a(t, ws, i, j, Free(g)) {
      To1a(t, ws, g, i, j);
    } else {
      var p :| i <= p < j && ListAt(t, ws, i, p, j, Free(g));
      hide *;
      ListSays(t, ws, i, p, j, Free(g));
      Sound1a(Front(t), ws, i, p, Free(g));
      RangeSays(ws, i, p, 2);
      OpIs(ws, g.i, i, p);
      SemiIsSep(ws[p]);
      AloneSides(ws, g, i, p, j);
      To1a(Front(t), ws, g, i, p);
      ToRest(Behind(t), ws, g, p + 1, j);
      PartsJoin(ws, g, i, p, p + 1, j);
    }
  }

  lemma SemiIsSep(w: Word)
    ensures IsSemi(w) || IsBack(w) ==> IsSep(w) && !IsAndAnd(w)
    ensures IsSep(w) ==> !IsBar(w)
  {
  }

  lemma ToRest(t: Command, ws: seq<Word>, g: Span, i: nat, j: nat)
    requires Alone(ws, g, i, j) && OfRest(t, ws, i, j, Free(g)) && MaySkip(ws, g, i) && (j == g.j || IsSep(ws[j]))
    ensures Parts(ws, g, i, j)
    decreases g.j - g.i, j - i, 5
  {
    AloneSays(ws, g, i, j);
    if i == j {
      EmptyPart(ws, g, i);
    } else if IsSep(ws[i]) {
      hide *;
      RestSays(t, ws, i, j, Free(g));
      SkipIsOp(ws, g, i);
      SemiIsSep(ws[i]);
      AloneSides(ws, g, i, i, j);
      ToRest(t, ws, g, i + 1, j);
      EmptyPart(ws, g, i);
      PartsJoin(ws, g, i, i, i + 1, j);
    } else {
      To1(t, ws, g, i, j);
    }
  }

  lemma RestSays(t: Command, ws: seq<Word>, i: nat, j: nat, fl: Context)
    requires i < j <= |ws| && IsSep(ws[i])
    ensures OfRest(t, ws, i, j, fl) <==> !IsBack(ws[i]) && OfRest(t, ws, i + 1, j, fl)
  {
  }

  lemma To0(t: Command, ws: seq<Word>, g: Span, i: nat)
    requires Alone(ws, g, i, g.j) && OfSyn0(t, ws, i, g.j, Free(g))
    ensures Parts(ws, g, i, g.j)
    decreases g.j - g.i, g.j - i, 6
  {
    AloneSays(ws, g, i, g.j);
    if OfSyn1(t, ws, i, g.j, Free(g)) {
      To1(t, ws, g, i, g.j);
    } else {
      var p :| i <= p < g.j && BackAt(t, ws, i, p, g.j, Free(g));
      hide *;
      BackSays(t, ws, i, p, g.j, Free(g));
      var t1 :| OfSyn1(t1, ws, i, p, Free(g)) && t.car == InBackground(t1);
      Sound1(t1, ws, i, p, Free(g));
      RangeSays(ws, i, p, 1);
      ClosedSays(ws, i, p);
      OpIs(ws, g.i, i, p);
      SemiIsSep(ws[p]);
      AloneSides(ws, g, i, p, g.j);
      To1(t1, ws, g, i, p);
      ToSyntax(t.cdr, ws, g, p + 1);
      PartsJoin(ws, g, i, p, p + 1, g.j);
    }
  }

  lemma ToSyntax(t: Command, ws: seq<Word>, g: Span, i: nat)
    requires Alone(ws, g, i, g.j) && OfSyntax(t, ws, i, g.j, Free(g)) && MaySkip(ws, g, i)
    ensures Parts(ws, g, i, g.j)
    decreases g.j - g.i, g.j - i, 7
  {
    AloneSays(ws, g, i, g.j);
    if i == g.j {
      EmptyPart(ws, g, i);
    } else if IsSep(ws[i]) {
      hide *;
      SkipOne(t, ws, i, g.j, Free(g));
      SkipIsOp(ws, g, i);
      SemiIsSep(ws[i]);
      AloneSides(ws, g, i, i, g.j);
      ToSyntax(t, ws, g, i + 1);
      EmptyPart(ws, g, i);
      PartsJoin(ws, g, i, i, i + 1, g.j);
    } else {
      To0(t, ws, g, i);
    }
  }

  lemma WholeIs(ws: seq<Word>, g: Span)
    requires g.i <= g.j <= |ws|
    ensures Alone(ws, g, g.i, g.j) && (g.line ==> MaySkip(ws, g, g.i))
    ensures Accepted(ws, g) <==> Balanced(ws, g.i, g.j) && Parts(ws, g, g.i, g.j)
  {
  }

  /** A group. */
  lemma ToGroup(t: Command, ws: seq<Word>, g: Span)
    requires g.i <= g.j <= |ws| && OfSyn0(t, ws, g.i, g.j, Free(g))
    ensures Accepted(ws, g)
    decreases g.j - g.i, g.j - g.i, 8
  {
    WholeIs(ws, g);
    To0(t, ws, g, g.i);
    Sound0(t, ws, g.i, g.j, Free(g));
  }

  /** A line. */
  lemma ToLine(t: Command, ws: seq<Word>, g: Span)
    requires g.i <= g.j <= |ws| && g.line && OfSyntax(t, ws, g.i, g.j, Free(g))
    ensures Accepted(ws, g)
  {
    WholeIs(ws, g);
    ToSyntax(t, ws, g, g.i);
    SoundSyntax(t, ws, g.i, g.j, Free(g));
  }

  // What is accepted can be derived

  /** Which function of the parser looks for the operator: syn0 (0) down to syn2 (4). */
  function Rank(w: Word): nat {
    if IsBar(w) then 4 else if IsAndAnd(w) then 3 else if IsOrOr(w) then 2 else if IsSemi(w) then 1 else 0
  }

  lemma RankIs(ws: seq<Word>, i: nat, p: nat)
    requires p < |ws| && OpAt(ws, i, p)
    ensures (Rank(ws[p]) == 4 <==> IsBar(ws[p])) && (Rank(ws[p]) == 3 <==> IsAndAnd(ws[p])) && (Rank(ws[p]) == 2 <==> IsOrOr(ws[p]))
    ensures (Rank(ws[p]) == 1 <==> IsSemi(ws[p])) && (Rank(ws[p]) == 0 <==> IsBack(ws[p]))
    ensures !IsBar(ws[p]) && Rank(ws[p]) != 2 ==> IsSep(ws[p])
    ensures Rank(ws[p]) <= 4 && (IsBar(ws[p]) || Rank(ws[p]) == 2 ==> !IsSep(ws[p]))
  {
    hide Level;
  }

  /** Only operators for the functions further down. */
  ghost predicate Kinds(ws: seq<Word>, i0: nat, i: nat, j: nat, n: nat)
    requires j <= |ws|
  {
    forall k {:trigger OpAt(ws, i0, k)} :: i <= k < j && OpAt(ws, i0, k) ==> Rank(ws[k]) >= n
  }

  /** The first operator for a function, or the end. */
  lemma {:induction false} FindOp(ws: seq<Word>, i0: nat, i: nat, q: nat, j: nat, n: nat) returns (p: nat)
    requires i <= q <= j <= |ws| && Kinds(ws, i0, i, j, n) && Kinds(ws, i0, i, q, n + 1)
    ensures i <= p <= j && Kinds(ws, i0, i, p, n + 1) && (p < j ==> OpAt(ws, i0, p) && Rank(ws[p]) == n)
    ensures Kinds(ws, i0, if p < j then p + 1 else j, j, n)
    decreases j - q
  {
    hide OpAt, Rank;
    if q == j || (OpAt(ws, i0, q) && Rank(ws[q]) == n) {
      p := q;
    } else {
      p := FindOp(ws, i0, i, q + 1, j, n);
    }
  }

  /** The part that starts at i is not one without words. */
  ghost predicate Must(ws: seq<Word>, g: Span, i: nat)
    requires i <= g.j <= |ws|
  {
    MaySkip(ws, g, i) ==> i < g.j && !IsSep(ws[i])
  }

  lemma NotEmpty(ws: seq<Word>, g: Span, i: nat, j: nat)
    requires Inner(ws, g, i, j) && Parts(ws, g, i, j) && Must(ws, g, i) && Kinds(ws, g.i, i, j, 5)
    ensures i < j && PartOk(ws, g, i, j)
  {
    hide Tidy, Suits, Some, GroupAt, Level, Begins, MaySkip, IsSep;
    forall k | i <= k < j ensures !OpAt(ws, g.i, k) {
    }
    hide OpAt, Rank;
    assert Between(ws, g, i, j);
  }

  /** A command for words that are tidy and suit. */
  lemma MakeLeaf(ws: seq<Word>, i: nat, j: nat, fl: Context, sub: Command) returns (t: Command)
    requires i <= j <= |ws| && Tidy(ws, i, j) && Suits(ws, i, j, fl, SpecialFrom(ws, i, j))
    requires if SpecialFrom(ws, i, j) || !Some(ws, i, j, '(') then Args(ws, i, j, START) != []
             else exists a: nat, b: nat :: i <= a < b < j && GroupAt(ws, i, j, a, b) && OfSyn0(sub, ws, a + 1, b, HERE)
    ensures OfSyn3(t, ws, i, j, fl)
  {
    hide *;
    TidyIsSpelled(ws, i, j);
    var items :| Spelled(items, ws, i, j);
    ItemsSay(items, ws, i, j, fl);
    MadeSays(items, ws, i, j);
    OneIn(items, fl, SpecialFrom(ws, i, j));
    var lef, rit, f := LastName(Ins(items)), LastName(Outs(items)), FlagsOf(items, IsLast(ws, j));
    t := if SpecialFrom(ws, i, j) || !Some(ws, i, j, '(') then Simple(Args(ws, i, j, START), lef, rit, f) else CshGrammar.Paren(sub, lef, rit, f);
    RedirectedSays(t, ws, i, j);
    LeafBySays(t, ws, i, j, fl);
    Syn3ByWords(t, ws, i, j, fl);
  }

  lemma From3(ws: seq<Word>, g: Span, i: nat, j: nat) returns (t: Command)
    requires Inner(ws, g, i, j) && Parts(ws, g, i, j) && Must(ws, g, i) && Kinds(ws, g.i, i, j, 5)
    ensures OfSyn3(t, ws, i, j, Around(ws, g, i, j)) && i < j
    decreases g.j - g.i, j - i, 0
  {
    hide *;
    InnerSays(ws, g, i, j);
    NotEmpty(ws, g, i, j);
    PartIs(ws, g, i, j);
    var sub := Null;
    if !(SpecialFrom(ws, i, j) || !Some(ws, i, j, '(')) {
      var a: nat, b: nat :| i <= a < b < j && GroupAt(ws, i, j, a, b) && Accepted(ws, Span(a + 1, b, true, false));
      sub := FromGroup(ws, Span(a + 1, b, true, false));
      FreeIs(Span(a + 1, b, true, false));
      assert OfSyn0(sub, ws, a + 1, b, HERE);
    }
    t := MakeLeaf(ws, i, j, Around(ws, g, i, j), sub);
  }

  /** Behind the bar at p. */
  lemma BarSides(ws: seq<Word>, g: Span, i: nat, p: nat, j: nat)
    requires Inner(ws, g, i, j) && i <= p < j && OpAt(ws, g.i, p) && IsBar(ws[p])
    ensures var q := Past(ws, p, g.j);
      && q <= j && Inner(ws, g, i, p) && Inner(ws, g, q, j) && BarBefore(ws, g.i, q) && BarAfter(ws, g, p) && Must(ws, g, q)
      && (q == p + 2 <==> p + 1 < g.j && ws[p + 1] == "&") && p < q <= p + 2
  {
    BehindOp(ws, g, p);
    EndsSays(ws, g, p);
    hide Level, Begins, BarBefore;
    assert Past(ws, p, g.j) == p + 2 ==> IsJoined(ws, g.i, p + 1) && !OpAt(ws, g.i, p + 1);
  }

  lemma From2(ws: seq<Word>, g: Span, i: nat, j: nat) returns (t: Command)
    requires Inner(ws, g, i, j) && Parts(ws, g, i, j) && Must(ws, g, i) && Kinds(ws, g.i, i, j, 4) && !BarAfter(ws, g, j)
    ensures OfSyn2(t, ws, i, j, Free(g).(pin := BarBefore(ws, g.i, i))) && i < j
    decreases g.j - g.i, j - i, 1
  {
    hide *;
    InnerSays(ws, g, i, j);
    KindsNone(ws, g.i, i, 5);
    var p := FindOp(ws, g.i, i, i, j, 4);
    var fl := Free(g).(pin := BarBefore(ws, g.i, i));
    if p == j {
      AroundFree(ws, g, i, j);
      t := From3(ws, g, i, j);
      OnlyOne2(t, ws, i, j, fl);
    } else {
      RankIs(ws, g.i, p);
      BarSides(ws, g, i, p, j);
      var q := Past(ws, p, g.j);
      PartsSay(ws, g, i, j, i, p);
      PartsSay(ws, g, i, j, q, j);
      AroundFree(ws, g, i, p);
      FreeIs(g);
      KindsLess(ws, g.i, p + 1, q, j, 4);
      var car := From3(ws, g, i, p);
      var cdr := From2(ws, g, q, j);
      t := Pipe(car, cdr, NOFLAGS.(err := p + 1 < g.j && ws[p + 1] == "&"));
      PipeSays(t, ws, i, p, j, fl);
      OfPipe(t, ws, i, p, j, fl);
    }
  }

  lemma KindsNone(ws: seq<Word>, i0: nat, i: nat, n: nat)
    requires i <= |ws|
    ensures Kinds(ws, i0, i, i, n)
  {
  }

  lemma KindsLess(ws: seq<Word>, i0: nat, i: nat, i': nat, j: nat, n: nat)
    requires i <= i' <= j <= |ws| && Kinds(ws, i0, i, j, n)
    ensures Kinds(ws, i0, i', j, n)
  {
    hide OpAt, Rank;
  }

  /** Behind an operator between commands one must come. */
  lemma MustFollow(ws: seq<Word>, g: Span, i: nat, p: nat)
    requires g.i <= i < p < g.j <= |ws| && OpAt(ws, g.i, p) && (Rank(ws[p]) == 2 || (Rank(ws[p]) == 3 && Kinds(ws, g.i, i, p, 4)))
    ensures Must(ws, g, p + 1)
  {
    RankIs(ws, g.i, p);
    if MaySkip(ws, g, p + 1) {
      SkipSays(ws, g, p + 1);
    }
    if MaySkip(ws, g, p) {
      SkipSays(ws, g, p);
    }
    if Rank(ws[p]) == 3 && OpAt(ws, g.i, p - 1) {
      RankIs(ws, g.i, p - 1);
      assert Rank(ws[p - 1]) >= 4;
    }
    hide Level, Rank, IsSep, IsAndAnd, IsOrOr, IsBar, OpAt, MaySkip;
  }

  lemma SkipSays(ws: seq<Word>, g: Span, c: nat)
    requires g.i < c <= g.j <= |ws| && MaySkip(ws, g, c)
    ensures OpAt(ws, g.i, c - 1) && IsSep(ws[c - 1]) && (IsAndAnd(ws[c - 1]) ==> MaySkip(ws, g, c - 1))
  {
  }

  lemma From1b(ws: seq<Word>, g: Span, i: nat, j: nat) returns (t: Command)
    requires Alone(ws, g, i, j) && Parts(ws, g, i, j) && Must(ws, g, i) && Kinds(ws, g.i, i, j, 3)
    ensures OfSyn1b(t, ws, i, j, Free(g)) && i < j
    decreases g.j - g.i, j - i, 2
  {
    hide *;
    AloneSays(ws, g, i, j);
    KindsNone(ws, g.i, i, 4);
    var p := FindOp(ws, g.i, i, i, j, 3);
    if p == j {
      t := From2(ws, g, i, j);
      OnlyOne1b(t, ws, i, j, Free(g));
    } else {
      RankIs(ws, g.i, p);
      NotBar(ws[p]);
      AloneSides(ws, g, i, p, j);
      AloneSays(ws, g, i, p);
      PartsSay(ws, g, i, j, i, p);
      PartsSay(ws, g, i, j, p + 1, j);
      var car := From2(ws, g, i, p);
      MustFollow(ws, g, i, p);
      var cdr := From1b(ws, g, p + 1, j);
      t := And(car, cdr, NOFLAGS);
      AndSays(t, ws, i, p, j, Free(g));
      OfAnd(t, ws, i, p, j, Free(g));
    }
  }

  lemma NotBar(w: Word)
    ensures IsAndAnd(w) || IsOrOr(w) || IsSemi(w) || IsBack(w) ==> !IsBar(w)
    ensures IsSep(w) ==> !IsBar(w)
  {
  }

  lemma From1a(ws: seq<Word>, g: Span, i: nat, j: nat) returns (t: Command)
    requires Alone(ws, g, i, j) && Parts(ws, g, i, j) && Must(ws, g, i) && Kinds(ws, g.i, i, j, 2)
    ensures OfSyn1a(t, ws, i, j, Free(g)) && i < j
    decreases g.j - g.i, j - i, 3
  {
    hide *;
    AloneSays(ws, g, i, j);
    KindsNone(ws, g.i, i, 3);
    var p := FindOp(ws, g.i, i, i, j, 2);
    if p == j {
      t := From1b(ws, g, i, j);
      OnlyOne1a(t, ws, i, j, Free(g));
    } else {
      RankIs(ws, g.i, p);
      NotBar(ws[p]);
      AloneSides(ws, g, i, p, j);
      PartsSay(ws, g, i, j, i, p);
      PartsSay(ws, g, i, j, p + 1, j);
      var car := From1b(ws, g, i, p);
      MustFollow(ws, g, i, p);
      var cdr := From1a(ws, g, p + 1, j);
      t := Or(car, cdr, NOFLAGS);
      OrSays(t, ws, i, p, j, Free(g));
      OfOr(t, ws, i, p, j, Free(g));
    }
  }

  lemma From1(ws: seq<Word>, g: Span, i: nat, j: nat) returns (t: Command)
    requires Alone(ws, g, i, j) && Parts(ws, g, i, j) && Must(ws, g, i) && Kinds(ws, g.i, i, j, 1)
    ensures OfSyn1(t, ws, i, j, Free(g)) && i < j
    decreases g.j - g.i, j - i, 4
  {
    hide *;
    AloneSays(ws, g, i, j);
    KindsNone(ws, g.i, i, 2);
    var p := FindOp(ws, g.i, i, i, j, 1);
    if p == j {
      t := From1a(ws, g, i, j);
      OnlyOne1(t, ws, i, j, Free(g));
    } else {
      RankIs(ws, g.i, p);
      NotBar(ws[p]);
      SemiIsSep(ws[p]);
      AloneSides(ws, g, i, p, j);
      PartsSay(ws, g, i, j, i, p);
      PartsSay(ws, g, i, j, p + 1, j);
      var car := From1a(ws, g, i, p);
      var rest := FromRest(ws, g, p + 1, j);
      t := MakeList(car, rest, ws, i, p, j, Free(g));
    }
  }

  lemma MakeList(car: Command, rest: Command, ws: seq<Word>, i: nat, p: nat, j: nat, fl: Context) returns (t: Command)
    requires i <= p < j <= |ws| && IsSemi(ws[p]) && OfSyn1a(car, ws, i, p, fl) && OfRest(rest, ws, p + 1, j, fl)
    ensures OfSyn1(t, ws, i, j, fl)
  {
    Sound1a(car, ws, i, p, fl);
    t := if rest.Null? then List(Null, car, NOFLAGS) else List(car, rest, NOFLAGS);
    ListSays(t, ws, i, p, j, fl);
    OfList(t, ws, i, p, j, fl);
    hide IsSemi, OfSyn1a, OfRest, ListAt, OfSyn1, Args, End, IsOr;
  }

  lemma FromRest(ws: seq<Word>, g: Span, i: nat, j: nat) returns (t: Command)
    requires Alone(ws, g, i, j) && Parts(ws, g, i, j) && MaySkip(ws, g, i) && Kinds(ws, g.i, i, j, 1)
    ensures OfRest(t, ws, i, j, Free(g))
    decreases g.j - g.i, j - i, 5
  {
    hide *;
    AloneSays(ws, g, i, j);
    RestIsNull(ws, j, Free(g));
    if i == j {
      t := Null;
    } else if IsSep(ws[i]) {
      SkipIsOp(ws, g, i);
      RankIs(ws, g.i, i);
      KindsSay(ws, g.i, i, j, 1);
      NotBar(ws[i]);
      AloneSides(ws, g, i, i, j);
      PartsSay(ws, g, i, j, i + 1, j);
      KindsLess(ws, g.i, i, i + 1, j, 1);
      t := FromRest(ws, g, i + 1, j);
      RestSays(t, ws, i, j, Free(g));
    } else {
      MustHere(ws, g, i);
      t := From1(ws, g, i, j);
      RestIs1(t, ws, i, j, Free(g));
    }
  }

  lemma RestIsNull(ws: seq<Word>, j: nat, fl: Context)
    requires j <= |ws|
    ensures OfRest(Null, ws, j, j, fl)
  {
  }

  lemma RestIs1(t: Command, ws: seq<Word>, i: nat, j: nat, fl: Context)
    requires i < j <= |ws| && !IsSep(ws[i])
    ensures OfRest(t, ws, i, j, fl) <==> OfSyn1(t, ws, i, j, fl)
    ensures OfSyntax(t, ws, i, j, fl) <==> OfSyn0(t, ws, i, j, fl)
  {
  }

  lemma KindsSay(ws: seq<Word>, i0: nat, i: nat, j: nat, n: nat)
    requires i < j <= |ws| && Kinds(ws, i0, i, j, n) && OpAt(ws, i0, i)
    ensures Rank(ws[i]) >= n
  {
  }

  lemma MustHere(ws: seq<Word>, g: Span, i: nat)
    requires i < g.j <= |ws| && !IsSep(ws[i])
    ensures Must(ws, g, i)
  {
  }

  lemma KindsAll(ws: seq<Word>, i0: nat, i: nat, j: nat)
    requires j <= |ws|
    ensures Kinds(ws, i0, i, j, 0)
  {
  }

  lemma From0(ws: seq<Word>, g: Span, i: nat) returns (t: Command)
    requires Alone(ws, g, i, g.j) && Parts(ws, g, i, g.j) && Must(ws, g, i)
    ensures OfSyn0(t, ws, i, g.j, Free(g))
    decreases g.j - g.i, g.j - i, 6
  {
    hide *;
    AloneSays(ws, g, i, g.j);
    KindsNone(ws, g.i, i, 1);
    KindsAll(ws, g.i, i, g.j);
    var p := FindOp(ws, g.i, i, i, g.j, 0);
    if p == g.j {
      t := From1(ws, g, i, g.j);
      OnlyOne0(t, ws, i, g.j, Free(g));
    } else {
      RankIs(ws, g.i, p);
      NotBar(ws[p]);
      SemiIsSep(ws[p]);
      AloneSides(ws, g, i, p, g.j);
      PartsSay(ws, g, i, g.j, i, p);
      PartsSay(ws, g, i, g.j, p + 1, g.j);
      var t1 := From1(ws, g, i, p);
      var rest := FromSyntax(ws, g, p + 1);
      t := List(InBackground(t1), rest, NOFLAGS);
      BackSays(t, ws, i, p, g.j, Free(g));
      OfBack(t, ws, i, p, g.j, Free(g));
    }
  }

  lemma FromSyntax(ws: seq<Word>, g: Span, i: nat) returns (t: Command)
    requires Alone(ws, g, i, g.j) && Parts(ws, g, i, g.j) && MaySkip(ws, g, i)
    ensures OfSyntax(t, ws, i, g.j, Free(g))
    decreases g.j - g.i, g.j - i, 7
  {
    hide *;
    AloneSays(ws, g, i, g.j);
    SyntaxEnds(ws, g.j, Free(g));
    if i == g.j {
      t := Null;
    } else if IsSep(ws[i]) {
      SkipIsOp(ws, g, i);
      NotBar(ws[i]);
      AloneSides(ws, g, i, i, g.j);
      PartsSay(ws, g, i, g.j, i + 1, g.j);
      t := FromSyntax(ws, g, i + 1);
      SkipOne(t, ws, i, g.j, Free(g));
    } else {
      MustHere(ws, g, i);
      t := From0(ws, g, i);
      RestIs1(t, ws, i, g.j, Free(g));
    }
  }

  lemma FromGroup(ws: seq<Word>, g: Span) returns (t: Command)
    requires g.i <= g.j <= |ws| && !g.line && Accepted(ws, g)
    ensures OfSyn0(t, ws, g.i, g.j, Free(g))
    decreases g.j - g.i, g.j - g.i, 8
  {
    WholeIs(ws, g);
    t := From0(ws, g, g.i);
  }

  /** A line can be derived exactly when it is accepted by its words. */
  lemma AcceptedIsDerived(ws: seq<Word>, g: Span)
    requires g.i <= g.j <= |ws| && g.line
    ensures Accepted(ws, g) <==> exists t :: OfSyntax(t, ws, g.i, g.j, Free(g))
  {
    hide Accepted, OfSyntax;
    WholeIs(ws, g);
    if Accepted(ws, g) {
      var t := FromSyntax(ws, g, g.i);
    }
    if t :| OfSyntax(t, ws, g.i, g.j, Free(g)) {
      ToLine(t, ws, g);
    }
  }
}
