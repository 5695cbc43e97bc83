/** src/bin/csh/parse.c: what a command without operators is, told by its words alone. */
module CshLeaves {
  import opened CshWords
  import opened CshGrammar
  import opened CshRanges
  import opened CshReads

  // Words outside parentheses

  /** A word outside parentheses that starts with c; commands begin at i. */
  ghost predicate At(ws: seq<Word>, i: nat, k: nat, c: char)
    requires k < |ws|
  {
    Level(ws, i, k) == 0 && First(ws[k]) == c
  }

  /** Where the file name is that belongs to the > at k: behind & and !, if they are there. */
  function NameOf(ws: seq<Word>, k: nat, j: nat): nat
    requires k < j <= |ws|
  {
    var a := if k + 1 < j && ws[k + 1] == "&" then k + 2 else k + 1;
    if a < j && ws[a] == "!" then a + 1 else a
  }

  /** Outside parentheses, a redirection has its file name, there is no operator and no separator, and
      a & only behind >. */
  ghost predicate Fine(ws: seq<Word>, i: nat, j: nat, k: nat)
    requires k < j <= |ws|
  {
    && First(ws[k]) !in ['|', ';', '\n']
    && (First(ws[k]) == '&' ==> ws[k] == "&" && k > i && First(ws[k - 1]) == '>')
    && (First(ws[k]) == '>' ==> NameOf(ws, k, j) < j && Ordinary(ws[NameOf(ws, k, j)]))
    && (First(ws[k]) == '<' ==> k + 1 < j && Ordinary(ws[k + 1]))
  }

  /** The words of a command without operators. */
  ghost predicate Tidy(ws: seq<Word>, i: nat, j: nat)
    requires j <= |ws|
  {
    Balanced(ws, i, j) && forall k {:trigger Fine(ws, i, j, k)} :: i <= k < j && Level(ws, i, k) == 0 ==> Fine(ws, i, j, k)
  }

  // The places of the items

  function Pos(items: seq<Item>, i: nat, m: nat): nat
    requires m <= |items|
  {
    i + Total(items[..m])
  }

  lemma PosNext(items: seq<Item>, i: nat, m: nat)
    requires m < |items|
    ensures Pos(items, i, m + 1) == Pos(items, i, m) + Len(items[m])
  {
    assert items[..m + 1][..m] == items[..m];
  }

  lemma {:induction false} PosMono(items: seq<Item>, i: nat, m: nat, n: nat)
    requires m < n <= |items|
    ensures Pos(items, i, m) + Len(items[m]) <= Pos(items, i, n)
  {
    PosNext(items, i, n - 1);
    if m < n - 1 {
      PosMono(items, i, m, n - 1);
    }
  }

  /** The item that starts at a place, and what kind it is. */
  lemma StartOf(items: seq<Item>, ws: seq<Word>, i: nat, j: nat, m: nat)
    requires i <= j <= |ws| && Spelled(items, ws, i, j) && m < |items|
    ensures var p, it := Pos(items, i, m), items[m];
      && i <= p && p + Len(it) <= j && Len(it) > 0 && ItemAt(it, ws, p) && Level(ws, i, p) == 0
      && (it.Arg? <==> Ordinary(ws[p])) && (it.Block? <==> First(ws[p]) == '(') && (it.Out? <==> First(ws[p]) == '>') && (it.In? <==> First(ws[p]) == '<')
  {
    SpelledAt(items, ws, i, j, m);
    SpelledRange(items[..m], ws, i, Pos(items, i, m));
  }

  /** The item that a word is part of. */
  lemma {:induction false} HolderOf(items: seq<Item>, ws: seq<Word>, i: nat, j: nat, k: nat) returns (m: nat)
    requires i <= k < j <= |ws| && Spelled(items, ws, i, j)
    ensures m < |items| && Pos(items, i, m) <= k < Pos(items, i, m) + Len(items[m])
  {
    var init, it := items[..|items| - 1], items[|items| - 1];
    SpelledTotal(init, ws, i, j - Len(it));
    if k < j - Len(it) {
      m := HolderOf(init, ws, i, j - Len(it), k);
      assert init[..m] == items[..m];
    } else {
      m := |items| - 1;
    }
  }

  /** Within an item, nothing outside parentheses looks like the start of one but an argument. */
  lemma Interior(it: Item, ws: seq<Word>, i: nat, p: nat, k: nat)
    requires i <= p < k < p + Len(it) <= |ws| && ItemAt(it, ws, p) && Level(ws, i, p) == 0
    ensures it.Block? ==> Level(ws, i, k) > 0
    ensures !it.Block? ==> (it.Out? || it.In?) && First(ws[k]) !in ['(', '<', '>', '|', ';', '\n'] && (First(ws[k]) == '&' ==> k == p + 1 && ws[k] == "&" && it.Out?)
  {
    LevelSplit(ws, i, p, k);
  }

  /** So a parenthesis or a redirection starts an item. */
  lemma StartAt(items: seq<Item>, ws: seq<Word>, i: nat, j: nat, k: nat) returns (m: nat)
    requires i <= k < j <= |ws| && Spelled(items, ws, i, j) && Level(ws, i, k) == 0 && First(ws[k]) in ['(', '<', '>']
    ensures m < |items| && Pos(items, i, m) == k
  {
    m := HolderOf(items, ws, i, j, k);
    StartOf(items, ws, i, j, m);
    if Pos(items, i, m) < k {
      Interior(items[m], ws, i, Pos(items, i, m), k);
    }
  }

  /** The words of a redirection. */
  lemma RedirWords(it: Item, ws: seq<Word>, p: nat, j: nat)
    requires p + Len(it) <= j <= |ws| && ItemAt(it, ws, p)
    ensures it.Out? ==> p < j && NameOf(ws, p, j) == p + Len(it) - 1 < j && ws[NameOf(ws, p, j)] == it.name && Ordinary(it.name)
    ensures it.Out? ==> it.append == Second(ws[p], '>') && it.err == (ws[p + 1] == "&") && it.force == (ws[NameOf(ws, p, j) - 1] == "!")
    ensures it.In? ==> ws[p + 1] == it.name && Ordinary(it.name) && it.read == Second(ws[p], '<')
  {
  }

  lemma FineAt(items: seq<Item>, ws: seq<Word>, i: nat, j: nat, k: nat)
    requires i <= k < j <= |ws| && Spelled(items, ws, i, j) && Level(ws, i, k) == 0
    ensures Fine(ws, i, j, k)
  {
    hide Spelled, Level, Total;
    var m := HolderOf(items, ws, i, j, k);
    StartOf(items, ws, i, j, m);
    var p := Pos(items, i, m);
    RedirWords(items[m], ws, p, j);
    if p < k {
      Interior(items[m], ws, i, p, k);
    }
  }

  /** The items of a range are tidy words. */
  lemma SpelledIsTidy(items: seq<Item>, ws: seq<Word>, i: nat, j: nat)
    requires i <= j <= |ws| && Spelled(items, ws, i, j)
    ensures Tidy(ws, i, j)
  {
    SpelledRange(items, ws, i, j);
    forall k | i <= k < j && Level(ws, i, k) == 0 ensures Fine(ws, i, j, k) {
      FineAt(items, ws, i, j, k);
    }
  }

  // And tidy words are items

  /** The parenthesis that closes the one at p. */
  lemma {:induction false} PartnerOf(ws: seq<Word>, i: nat, p: nat, q: nat, j: nat) returns (n: nat)
    requires i <= p < q <= j <= |ws| && Level(ws, i, p) == 0 && Balanced(ws, i, j) && First(ws[p]) == '('
    requires forall k :: p < k <= q ==> Level(ws, p, k) > 0
    ensures p + n <= j && IsBlock(ws, p, n)
    decreases j - q
  {
    LevelSplit(ws, i, p, j);
    LevelSplit(ws, i, p, q);
    assert q < j;
    LevelSplit(ws, i, p, q + 1);
    if Level(ws, p, q + 1) == 0 {
      n := q + 1 - p;
    } else {
      n := PartnerOf(ws, i, p, q + 1, j);
    }
  }

  /** The item at p. */
  lemma ItemOf(ws: seq<Word>, i: nat, p: nat, j: nat) returns (it: Item)
    requires i <= p < j <= |ws| && Tidy(ws, i, j) && Level(ws, i, p) == 0 && (p > i ==> First(ws[p - 1]) != '>')
    ensures p + Len(it) <= j && ItemAt(it, ws, p) && Len(it) > 0
  {
    assert Fine(ws, i, j, p);
    if First(ws[p]) == '(' {
      assert Level(ws, p, p) == 0 && Level(ws, p, p + 1) == 1;
      var n := PartnerOf(ws, i, p, p + 1, j);
      it := Block(p, n);
    } else if First(ws[p]) == '>' {
      var e := NameOf(ws, p, j);
      it := Out(Second(ws[p], '>'), ws[p + 1] == "&", ws[e - 1] == "!", ws[e]);
    } else if First(ws[p]) == '<' {
      it := In(Second(ws[p], '<'), ws[p + 1]);
    } else {
      assert Level(ws, i, p + 1) == Level(ws, i, p) + CshWords.Paren(ws[p]) >= 0;
      it := Arg(ws[p]);
    }
  }

  lemma {:induction false} ItemsOf(ws: seq<Word>, i: nat, p: nat, j: nat, done: seq<Item>) returns (items: seq<Item>)
    requires i <= p <= j <= |ws| && Tidy(ws, i, j) && Spelled(done, ws, i, p)
    ensures Spelled(items, ws, i, j)
    decreases j - p
  {
    hide *;
    SpelledEnds(done, ws, i, p);
    if p == j {
      items := done;
    } else {
      var it := ItemOf(ws, i, p, j);
      SpelledMore(done, it, ws, i, p);
      items := ItemsOf(ws, i, p + Len(it), j, done + [it]);
    }
  }

  lemma SpelledEnds(items: seq<Item>, ws: seq<Word>, i: nat, j: nat)
    requires i <= j <= |ws| && Spelled(items, ws, i, j)
    ensures Level(ws, i, j) == 0 && (j > i ==> First(ws[j - 1]) != '>')
  {
    SpelledRange(items, ws, i, j);
    assert items == [] ==> i == j;
  }

  /** Words are the words of items exactly when they are tidy. */
  lemma TidyIsSpelled(ws: seq<Word>, i: nat, j: nat)
    requires i <= j <= |ws|
    ensures Tidy(ws, i, j) <==> exists items :: Spelled(items, ws, i, j)
  {
    hide Tidy;
    if Tidy(ws, i, j) {
      assert Spelled([], ws, i, i);
      var items := ItemsOf(ws, i, i, j, []);
    }
    if items :| Spelled(items, ws, i, j) {
      SpelledIsTidy(items, ws, i, j);
    }
  }

  // Redirections and groups among the items

  predicate Is(it: Item, c: char) {
    if c == '<' then it.In? else if c == '>' then it.Out? else it.Block?
  }

  function Picks(items: seq<Item>, c: char): seq<Item> {
    if c == '<' then Ins(items) else if c == '>' then Outs(items) else Blocks(items)
  }

  lemma PicksLast(items: seq<Item>, c: char)
    ensures Picks([], c) == []
    ensures items != [] ==>
      var n := |items| - 1; Picks(items, c) == Picks(items[..n], c) + if Is(items[n], c) then [items[n]] else []
  {
  }

  /** The picked items are those of the kind. */
  lemma {:induction false} PickedAt(items: seq<Item>, c: char, m: nat)
    requires m < |items| && Is(items[m], c)
    ensures items[m] in Picks(items, c)
  {
    PicksLast(items, c);
    if m < |items| - 1 {
      PickedAt(items[..|items| - 1], c, m);
    }
  }

  lemma {:induction false} PickedFrom(items: seq<Item>, c: char, it: Item) returns (m: nat)
    requires it in Picks(items, c)
    ensures m < |items| && items[m] == it && Is(it, c)
  {
    PicksLast(items, c);
    hide Picks, Is;
    if Is(items[|items| - 1], c) && items[|items| - 1] == it {
      m := |items| - 1;
    } else {
      m := PickedFrom(items[..|items| - 1], c, it);
    }
  }

  lemma {:induction false} TwoPicked(items: seq<Item>, c: char, a: nat, b: nat)
    requires a < b < |items| && Is(items[a], c) && Is(items[b], c)
    ensures |Picks(items, c)| > 1
  {
    PicksLast(items, c);
    hide Picks, Is;
    var n := |items| - 1;
    if b < n {
      TwoPicked(items[..n], c, a, b);
    } else {
      PickedAt(items[..n], c, a);
    }
  }

  lemma {:induction false} TwoFrom(items: seq<Item>, c: char) returns (a: nat, b: nat)
    requires |Picks(items, c)| > 1
    ensures a < b < |items| && Is(items[a], c) && Is(items[b], c)
  {
    PicksLast(items, c);
    hide Picks, Is;
    var n := |items| - 1;
    if |Picks(items[..n], c)| > 1 {
      a, b := TwoFrom(items[..n], c);
    } else {
      assert Is(items[n], c) && |Picks(items[..n], c)| > 0;
      a := PickedFrom(items[..n], c, Picks(items[..n], c)[0]);
      b := n;
    }
  }

  lemma {:induction false} LastFrom(items: seq<Item>, c: char) returns (m: nat)
    requires Picks(items, c) != []
    ensures m < |items| && Is(items[m], c) && items[m] == Picks(items, c)[|Picks(items, c)| - 1]
    ensures forall n :: m < n < |items| ==> !Is(items[n], c)
  {
    PicksLast(items, c);
    hide Picks, Is;
    var n := |items| - 1;
    if Is(items[n], c) {
      m := n;
    } else {
      m := LastFrom(items[..n], c);
    }
  }

  ghost predicate Some(ws: seq<Word>, i: nat, j: nat, c: char)
    requires j <= |ws|
  {
    exists k :: i <= k < j && At(ws, i, k, c)
  }

  ghost predicate Once(ws: seq<Word>, i: nat, j: nat, c: char)
    requires j <= |ws|
  {
    forall a, b :: i <= a < b < j ==> !(At(ws, i, a, c) && At(ws, i, b, c))
  }

  predicate IsKind(c: char) {
    c == '<' || c == '>' || c == '('
  }

  /** The word that an item of a kind starts with, and the item that such a word starts. */
  lemma WordFor(items: seq<Item>, ws: seq<Word>, i: nat, j: nat, c: char, m: nat) returns (k: nat)
    requires i <= j <= |ws| && Spelled(items, ws, i, j) && IsKind(c) && m < |items| && Is(items[m], c)
    ensures k == Pos(items, i, m) && i <= k < j && At(ws, i, k, c) && k + Len(items[m]) <= j && ItemAt(items[m], ws, k)
  {
    StartOf(items, ws, i, j, m);
    k := Pos(items, i, m);
  }

  lemma ItemFor(items: seq<Item>, ws: seq<Word>, i: nat, j: nat, c: char, k: nat) returns (m: nat)
    requires i <= k < j <= |ws| && Spelled(items, ws, i, j) && IsKind(c) && At(ws, i, k, c)
    ensures m < |items| && Pos(items, i, m) == k && Is(items[m], c) && k + Len(items[m]) <= j && ItemAt(items[m], ws, k)
  {
    m := StartAt(items, ws, i, j, k);
    StartOf(items, ws, i, j, m);
  }

  lemma SomeIs(items: seq<Item>, ws: seq<Word>, i: nat, j: nat, c: char)
    requires i <= j <= |ws| && Spelled(items, ws, i, j) && IsKind(c)
    ensures Some(ws, i, j, c) <==> Picks(items, c) != []
  {
    hide At, Spelled, Picks, Is, IsKind, Pos, ItemAt, Len;
    if k :| i <= k < j && At(ws, i, k, c) {
      var m := ItemFor(items, ws, i, j, c, k);
      PickedAt(items, c, m);
    }
    if Picks(items, c) != [] {
      var m := PickedFrom(items, c, Picks(items, c)[0]);
      var k := WordFor(items, ws, i, j, c, m);
    }
  }

  lemma OnceIs(items: seq<Item>, ws: seq<Word>, i: nat, j: nat, c: char)
    requires i <= j <= |ws| && Spelled(items, ws, i, j) && IsKind(c)
    ensures Once(ws, i, j, c) <==> |Picks(items, c)| <= 1
  {
    hide At, Spelled, Picks, Is, IsKind, Pos, ItemAt;
    if a, b :| i <= a < b < j && At(ws, i, a, c) && At(ws, i, b, c) {
      var m := ItemFor(items, ws, i, j, c, a);
      var n := ItemFor(items, ws, i, j, c, b);
      if n < m {
        PosMono(items, i, n, m);
      }
      TwoPicked(items, c, m, n);
    }
    if |Picks(items, c)| > 1 {
      var m, n := TwoFrom(items, c);
      var a := WordFor(items, ws, i, j, c, m);
      var b := WordFor(items, ws, i, j, c, n);
      PosMono(items, i, m, n);
      ItemIsLong(items[m], ws, a);
    }
  }

  // What the words say of the redirections

  ghost predicate Appends(ws: seq<Word>, i: nat, j: nat)
    requires j <= |ws|
  {
    exists k :: i <= k < j && At(ws, i, k, '>') && Second(ws[k], '>')
  }

  ghost predicate Errs(ws: seq<Word>, i: nat, j: nat)
    requires j <= |ws|
  {
    exists k :: i <= k < j && At(ws, i, k, '>') && k + 1 < j && ws[k + 1] == "&"
  }

  ghost predicate Forces(ws: seq<Word>, i: nat, j: nat)
    requires j <= |ws|
  {
    exists k :: i <= k < j && At(ws, i, k, '>') && ws[NameOf(ws, k, j) - 1] == "!"
  }

  ghost predicate Heres(ws: seq<Word>, i: nat, j: nat)
    requires j <= |ws|
  {
    exists k :: i <= k < j && At(ws, i, k, '<') && Second(ws[k], '<')
  }

  /** The last word of its kind. */
  ghost predicate LastAt(ws: seq<Word>, i: nat, j: nat, k: nat, c: char)
    requires j <= |ws|
  {
    i <= k < j && At(ws, i, k, c) && forall b :: k < b < j ==> !At(ws, i, b, c)
  }

  /** The input is what follows <. */
  ghost predicate LefSaid(lef: File, ws: seq<Word>, i: nat, j: nat)
    requires j <= |ws|
  {
    && (forall k {:trigger At(ws, i, k, '<')} :: i <= k < j && At(ws, i, k, '<') ==> k + 1 < j && lef == File(ws[k + 1]))
    && (!Some(ws, i, j, '<') ==> lef == NoFile)
  }

  /** The output is what follows the last > and its options. */
  ghost predicate RitSaid(rit: File, ws: seq<Word>, i: nat, j: nat)
    requires j <= |ws|
  {
    && (forall k :: LastAt(ws, i, j, k, '>') ==> NameOf(ws, k, j) < j && rit == File(ws[NameOf(ws, k, j)]))
    && (!Some(ws, i, j, '>') ==> rit == NoFile)
  }

  /** Each flag tells of an option; nofork that a parenthesis closes behind the command. */
  ghost predicate FlagsSaid(f: CmdFlags, ws: seq<Word>, i: nat, j: nat)
    requires j <= |ws|
  {
    && (f.append <==> Appends(ws, i, j)) && (f.err <==> Errs(ws, i, j)) && (f.overwrite <==> Forces(ws, i, j))
    && (f.read <==> Heres(ws, i, j)) && (f.nofork <==> j < |ws| && First(ws[j]) == ')')
  }

  lemma PickedIs(items: seq<Item>)
    ensures Picks(items, '<') == Ins(items) && Picks(items, '>') == Outs(items) && Picks(items, '(') == Blocks(items)
    ensures forall it :: (Is(it, '<') <==> it.In?) && (Is(it, '>') <==> it.Out?) && (Is(it, '(') <==> it.Block?)
    ensures IsKind('<') && IsKind('>') && IsKind('(')
  {
  }

  lemma InSays(items: seq<Item>, ws: seq<Word>, i: nat, j: nat)
    requires i <= j <= |ws| && Spelled(items, ws, i, j) && |Ins(items)| <= 1
    ensures LefSaid(LastName(Ins(items)), ws, i, j)
  {
    hide At, Spelled, Picks, Is, IsKind, Pos, Len, ItemAt, Ins, Some;
    PickedIs(items);
    SomeIs(items, ws, i, j, '<');
    forall k | i <= k < j && At(ws, i, k, '<') ensures k + 1 < j && LastName(Ins(items)) == File(ws[k + 1]) {
      var m := ItemFor(items, ws, i, j, '<', k);
      PickedAt(items, '<', m);
      RedirWords(items[m], ws, k, j);
      InIsTwo(items[m]);
    }
  }

  lemma InIsTwo(it: Item)
    ensures it.In? ==> Len(it) == 2
  {
  }

  lemma OutSays(items: seq<Item>, ws: seq<Word>, i: nat, j: nat)
    requires i <= j <= |ws| && Spelled(items, ws, i, j)
    ensures RitSaid(LastName(Outs(items)), ws, i, j)
  {
    hide At, Spelled, Picks, Is, IsKind, Pos, Len, ItemAt, Outs, Some;
    PickedIs(items);
    SomeIs(items, ws, i, j, '>');
    forall k | LastAt(ws, i, j, k, '>') ensures NameOf(ws, k, j) < j && LastName(Outs(items)) == File(ws[NameOf(ws, k, j)]) {
      var m := ItemFor(items, ws, i, j, '>', k);
      PickedAt(items, '>', m);
      RedirWords(items[m], ws, k, j);
      var n := LastFrom(items, '>');
      if m < n {
        PosMono(items, i, m, n);
        ItemIsLong(items[m], ws, k);
        var b := WordFor(items, ws, i, j, '>', n);
      }
    }
  }

  /** The options of the items are those that the words give. */
  lemma OptionsSay(items: seq<Item>, ws: seq<Word>, i: nat, j: nat)
    requires i <= j <= |ws| && Spelled(items, ws, i, j)
    ensures Appends(ws, i, j) <==> exists it :: it in Outs(items) && it.append
    ensures Errs(ws, i, j) <==> exists it :: it in Outs(items) && it.err
    ensures Forces(ws, i, j) <==> exists it :: it in Outs(items) && it.force
  {
    hide At, Spelled, Picks, Is, IsKind, Pos, Len, ItemAt, Outs, Some, Second, NameOf;
    PickedIs(items);
    forall k | i <= k < j && At(ws, i, k, '>') ensures exists it :: it in Outs(items) && OptionsAt(it, ws, k, j) {
      var m := ItemFor(items, ws, i, j, '>', k);
      PickedAt(items, '>', m);
      OptionsAre(items[m], ws, k, j);
    }
    forall it | it in Outs(items) ensures exists k :: i <= k < j && At(ws, i, k, '>') && OptionsAt(it, ws, k, j) {
      var m := PickedFrom(items, '>', it);
      var k := WordFor(items, ws, i, j, '>', m);
      OptionsAre(it, ws, k, j);
    }
  }

  ghost predicate OptionsAt(it: Item, ws: seq<Word>, k: nat, j: nat)
    requires k < j <= |ws|
  {
    it.Out? && it.append == Second(ws[k], '>') && k + 1 < j && it.err == (ws[k + 1] == "&") && it.force == (ws[NameOf(ws, k, j) - 1] == "!")
  }

  lemma OptionsAre(it: Item, ws: seq<Word>, k: nat, j: nat)
    requires k < j <= |ws| && k + Len(it) <= j && ItemAt(it, ws, k) && it.Out?
    ensures OptionsAt(it, ws, k, j)
  {
    RedirWords(it, ws, k, j);
  }

  lemma HereSays(items: seq<Item>, ws: seq<Word>, i: nat, j: nat)
    requires i <= j <= |ws| && Spelled(items, ws, i, j)
    ensures Heres(ws, i, j) <==> exists it :: it in Ins(items) && it.read
  {
    hide At, Spelled, Picks, Is, IsKind, Pos, Len, ItemAt, Ins, Some, Second;
    PickedIs(items);
    if k :| i <= k < j && At(ws, i, k, '<') && Second(ws[k], '<') {
      var m := ItemFor(items, ws, i, j, '<', k);
      PickedAt(items, '<', m);
      RedirWords(items[m], ws, k, j);
    }
    if it :| it in Ins(items) && it.read {
      var m := PickedFrom(items, '<', it);
      var k := WordFor(items, ws, i, j, '<', m);
      RedirWords(it, ws, k, j);
    }
  }

  lemma FlagsSay(items: seq<Item>, ws: seq<Word>, i: nat, j: nat)
    requires i <= j <= |ws| && Spelled(items, ws, i, j)
    ensures FlagsSaid(FlagsOf(items, IsLast(ws, j)), ws, i, j)
  {
    OptionsSay(items, ws, i, j);
    HereSays(items, ws, i, j);
    hide Outs, Ins, Spelled, Appends, Errs, Forces, Heres;
  }

  // When the redirections fit

  /** What a pipe and parentheses ask of the redirections: the input is given once, and not behind a
      bar; in front of a bar the output is given only with |&, and then once and without &; << is
      not within parentheses; and there is one group. */
  ghost predicate Suits(ws: seq<Word>, i: nat, j: nat, fl: Context, specp: bool)
    requires j <= |ws|
  {
    && (fl.pin ==> !Some(ws, i, j, '<')) && Once(ws, i, j, '<') && (fl.here ==> !Heres(ws, i, j))
    && (fl.pout ==> !Some(ws, i, j, '>') || (fl.perr && Once(ws, i, j, '>'))) && (fl.pout || fl.perr ==> !Errs(ws, i, j))
    && (!specp ==> Once(ws, i, j, '('))
  }

  lemma FitsIsSuits(items: seq<Item>, ws: seq<Word>, i: nat, j: nat, fl: Context, specp: bool)
    requires i <= j <= |ws| && Spelled(items, ws, i, j)
    ensures Fits(items, fl, specp) <==> Suits(ws, i, j, fl, specp)
  {
    PickedIs(items);
    SomeIs(items, ws, i, j, '<');
    SomeIs(items, ws, i, j, '>');
    OnceIs(items, ws, i, j, '<');
    OnceIs(items, ws, i, j, '>');
    OnceIs(items, ws, i, j, '(');
    OptionsSay(items, ws, i, j);
    HereSays(items, ws, i, j);
    hide At, Spelled, Picks, Is, IsKind, Ins, Outs, Blocks, Some, Once, Heres, Errs, Appends, Forces;
    assert |Ins(items)| == 1 ==> forall it :: it in Ins(items) ==> it == Ins(items)[0];
  }

  // A command with its words, or a group

  ghost predicate Redirected(t: Command, ws: seq<Word>, i: nat, j: nat)
    requires j <= |ws|
  {
    (t.Simple? || t.Paren?) && LefSaid(t.lef, ws, i, j) && RitSaid(t.rit, ws, i, j) && FlagsSaid(t.flags, ws, i, j)
  }

  /** The word is an option or the file name of a redirection. */
  ghost predicate Attached(ws: seq<Word>, i: nat, j: nat, k: nat)
    requires k < j <= |ws|
  {
    exists r :: i <= r < k && ((At(ws, i, r, '>') && k <= NameOf(ws, r, j)) || (At(ws, i, r, '<') && k == r + 1))
  }

  /** The parentheses at a and b are the group, and there are only redirections beside it. */
  ghost predicate GroupAt(ws: seq<Word>, i: nat, j: nat, a: nat, b: nat)
    requires j <= |ws|
  {
    && i <= a < b < j && At(ws, i, a, '(') && First(ws[b]) == ')' && Level(ws, i, b) == 1
    && (forall k :: a < k <= b ==> Level(ws, i, k) > 0)
    && forall k {:trigger Attached(ws, i, j, k)} :: i <= k < j && Level(ws, i, k) == 0 && Ordinary(ws[k]) ==> Attached(ws, i, j, k)
  }

  /** What syn3 makes of a range, by its words: with a keyword, or without parentheses, a command with
      the arguments of the range; otherwise a group. */
  ghost predicate LeafBy(t: Command, ws: seq<Word>, i: nat, j: nat, fl: Context)
    requires i <= j <= |ws|
  {
    && Tidy(ws, i, j) && Suits(ws, i, j, fl, SpecialFrom(ws, i, j)) && Redirected(t, ws, i, j) && !t.flags.amp
    && if SpecialFrom(ws, i, j) || !Some(ws, i, j, '(') then t.Simple? && t.args == Args(ws, i, j, START) && t.args != []
       else t.Paren? && exists a: nat, b: nat :: i <= a < b < j && GroupAt(ws, i, j, a, b) && OfSyn0(t.sub, ws, a + 1, b, HERE)
  }

  lemma {:induction false} ArgsOf(items: seq<Item>, ws: seq<Word>, m: nat)
    requires m < |items| && items[m].Arg?
    ensures ArgWords(items, ws, false) != []
  {
    if m < |items| - 1 {
      ArgsOf(items[..|items| - 1], ws, m);
    }
  }

  lemma {:induction false} NoArgs(items: seq<Item>, ws: seq<Word>)
    requires forall m :: 0 <= m < |items| ==> !items[m].Arg?
    ensures ArgWords(items, ws, false) == []
  {
    if items != [] {
      NoArgs(items[..|items| - 1], ws);
    }
  }

  /** Without arguments, every word belongs to a redirection. */
  lemma AttachedAll(items: seq<Item>, ws: seq<Word>, i: nat, j: nat, k: nat)
    requires i <= k < j <= |ws| && Spelled(items, ws, i, j) && ArgWords(items, ws, false) == [] && Level(ws, i, k) == 0 && Ordinary(ws[k])
    ensures Attached(ws, i, j, k)
  {
    hide Spelled, Level, Total, ArgWords, Ordinary;
    var m := HolderOf(items, ws, i, j, k);
    StartOf(items, ws, i, j, m);
    var p := Pos(items, i, m);
    if p == k {
      ArgsOf(items, ws, m);
    } else {
      Interior(items[m], ws, i, p, k);
      RedirWords(items[m], ws, p, j);
      InIsTwo(items[m]);
      assert At(ws, i, p, '>') || At(ws, i, p, '<');
    }
  }

  lemma NotAttached(items: seq<Item>, ws: seq<Word>, i: nat, j: nat, m: nat)
    requires i <= j <= |ws| && Spelled(items, ws, i, j) && m < |items| && items[m].Arg?
    ensures Pos(items, i, m) < j && Level(ws, i, Pos(items, i, m)) == 0 && Ordinary(ws[Pos(items, i, m)]) && !Attached(ws, i, j, Pos(items, i, m))
  {
    hide Spelled, Level, Total, Ordinary, ItemAt, Pos;
    StartOf(items, ws, i, j, m);
    var k := Pos(items, i, m);
    if r :| i <= r < k && ((At(ws, i, r, '>') && k <= NameOf(ws, r, j)) || (At(ws, i, r, '<') && k == r + 1)) {
      var n := StartAt(items, ws, i, j, r);
      StartOf(items, ws, i, j, n);
      RedirWords(items[n], ws, r, j);
      InIsTwo(items[n]);
      if n < m {
        PosMono(items, i, n, m);
      } else if m < n {
        PosMono(items, i, m, n);
      }
    }
  }

  /** The group among the items, by its parentheses. */
  lemma GroupFrom(items: seq<Item>, ws: seq<Word>, i: nat, j: nat) returns (a: nat, b: nat)
    requires i <= j <= |ws| && Spelled(items, ws, i, j) && Blocks(items) != [] && ArgWords(items, ws, false) == []
    ensures GroupAt(ws, i, j, a, b) && Blocks(items)[0] == Block(a, b + 1 - a)
  {
    hide *;
    var it := Blocks(items)[0];
    PickedIs(items);
    var m := PickedFrom(items, '(', it);
    a := WordFor(items, ws, i, j, '(', m);
    b := BlockEnds(it, ws, i, a, j);
    forall k: nat | i <= k < j && Level(ws, i, k) == 0 && Ordinary(ws[k]) ensures Attached(ws, i, j, k) {
      AttachedAll(items, ws, i, j, k);
    }
    GroupAtIs(ws, i, j, a, b);
  }

  lemma GroupAtIs(ws: seq<Word>, i: nat, j: nat, a: nat, b: nat)
    requires i <= a < b < j <= |ws| && At(ws, i, a, '(') && First(ws[b]) == ')' && Level(ws, i, b) == 1 && forall k :: a < k <= b ==> Level(ws, i, k) > 0
    requires forall k {:trigger Attached(ws, i, j, k)} :: i <= k < j && Level(ws, i, k) == 0 && Ordinary(ws[k]) ==> Attached(ws, i, j, k)
    ensures GroupAt(ws, i, j, a, b)
  {
  }

  lemma BlockEnds(it: Item, ws: seq<Word>, i: nat, a: nat, j: nat) returns (b: nat)
    requires i <= a && it.Block? && a + Len(it) <= j <= |ws| && ItemAt(it, ws, a) && At(ws, i, a, '(')
    ensures a < b < j && it == Block(a, b + 1 - a) && First(ws[b]) == ')' && Level(ws, i, b) == 1 && forall k :: a < k <= b ==> Level(ws, i, k) > 0
  {
    BlockRange(ws, a, it.n);
    b := a + it.n - 1;
    forall k | a < k <= b ensures Level(ws, i, k) == Level(ws, a, k) > 0 {
      LevelSplit(ws, i, a, k);
    }
    assert Level(ws, a, b + 1) == Level(ws, a, b) - 1;
  }

  lemma GroupIs(items: seq<Item>, ws: seq<Word>, i: nat, j: nat, a: nat, b: nat)
    requires i <= j <= |ws| && Spelled(items, ws, i, j) && |Blocks(items)| <= 1 && GroupAt(ws, i, j, a, b)
    ensures ArgWords(items, ws, false) == [] && Blocks(items) == [Block(a, b + 1 - a)]
  {
    PickedIs(items);
    hide Spelled, Blocks, ArgWords, Is, Picks, Attached, Ordinary, Pos;
    var m := ItemFor(items, ws, i, j, '(', a);
    PickedAt(items, '(', m);
    OneBlock(ws, i, a, b, items[m], j);
    forall n | 0 <= n < |items| ensures !items[n].Arg? {
      if items[n].Arg? {
        NotAttached(items, ws, i, j, n);
        StartOf(items, ws, i, j, n);
      }
    }
    NoArgs(items, ws);
  }

  lemma OneBlock(ws: seq<Word>, i: nat, a: nat, b: nat, it: Item, j: nat)
    requires i <= a < b < j <= |ws| && At(ws, i, a, '(') && First(ws[b]) == ')' && Level(ws, i, b) == 1 && forall k :: a < k <= b ==> Level(ws, i, k) > 0
    requires it.Block? && a + it.n <= j && ItemAt(it, ws, a)
    ensures it == Block(a, b + 1 - a)
  {
    assert Level(ws, i, b + 1) == 0;
    LevelSplit(ws, i, a, b + 1);
    LevelSplit(ws, i, a, a + it.n);
  }

  lemma {:induction false} LastOf(ws: seq<Word>, i: nat, j: nat, c: char) returns (k: nat)
    requires i <= j <= |ws| && Some(ws, i, j, c)
    ensures LastAt(ws, i, j, k, c)
    decreases j
  {
    hide At;
    var a :| i <= a < j && At(ws, i, a, c);
    if At(ws, i, j - 1, c) {
      k := j - 1;
    } else {
      k := LastOf(ws, i, j - 1, c);
    }
  }

  /** The words say it all. */
  lemma SaidOnce(lef: File, rit: File, f: CmdFlags, lef': File, rit': File, f': CmdFlags, ws: seq<Word>, i: nat, j: nat)
    requires i <= j <= |ws| && LefSaid(lef, ws, i, j) && RitSaid(rit, ws, i, j) && FlagsSaid(f, ws, i, j)
    requires LefSaid(lef', ws, i, j) && RitSaid(rit', ws, i, j) && FlagsSaid(f', ws, i, j)
    ensures lef == lef' && rit == rit' && f.(amp := f'.amp) == f'
  {
    hide At, Appends, Errs, Forces, Heres, NameOf;
    if Some(ws, i, j, '>') {
      var k := LastOf(ws, i, j, '>');
    }
  }

  /** What the items of a range say. */
  lemma ItemsSay(items: seq<Item>, ws: seq<Word>, i: nat, j: nat, fl: Context)
    requires i <= j <= |ws| && Spelled(items, ws, i, j)
    ensures Tidy(ws, i, j) && (Fits(items, fl, SpecialFrom(ws, i, j)) <==> Suits(ws, i, j, fl, SpecialFrom(ws, i, j)))
    ensures Some(ws, i, j, '(') <==> Blocks(items) != []
    ensures |Ins(items)| <= 1 ==> LefSaid(LastName(Ins(items)), ws, i, j)
    ensures RitSaid(LastName(Outs(items)), ws, i, j) && FlagsSaid(FlagsOf(items, IsLast(ws, j)), ws, i, j)
    ensures SpecialFrom(ws, i, j) || Blocks(items) == [] ==> ArgWords(items, ws, SpecialFrom(ws, i, j)) == Args(ws, i, j, START)
  {
    hide *;
    SpelledIsTidy(items, ws, i, j);
    FitsIsSuits(items, ws, i, j, fl, SpecialFrom(ws, i, j));
    PickedIs(items);
    SomeIs(items, ws, i, j, '(');
    if |Ins(items)| <= 1 {
      InSays(items, ws, i, j);
    }
    OutSays(items, ws, i, j);
    FlagsSay(items, ws, i, j);
    if SpecialFrom(ws, i, j) || Blocks(items) == [] {
      SpelledReads(items, ws, i, j, j);
      ReadsSays(ws, i, j, j, ArgWords(items, ws, SpecialFrom(ws, i, j)), SpecialFrom(ws, i, j));
    }
  }

  lemma ReadsSays(ws: seq<Word>, i: nat, p: nat, j: nat, args: seq<Word>, specp: bool)
    requires i <= p <= j <= |ws| && Reads(ws, i, p, j, args, specp)
    ensures Args(ws, i, p, START) == args
  {
  }

  lemma LeafBySays(t: Command, ws: seq<Word>, i: nat, j: nat, fl: Context)
    requires i <= j <= |ws|
    ensures LeafBy(t, ws, i, j, fl) <==>
      && Tidy(ws, i, j) && Suits(ws, i, j, fl, SpecialFrom(ws, i, j)) && Redirected(t, ws, i, j) && !t.flags.amp
      && if SpecialFrom(ws, i, j) || !Some(ws, i, j, '(') then t.Simple? && t.args == Args(ws, i, j, START) && t.args != []
         else t.Paren? && exists a: nat, b: nat :: i <= a < b < j && GroupAt(ws, i, j, a, b) && OfSyn0(t.sub, ws, a + 1, b, HERE)
  {
  }

  lemma MadeSays(items: seq<Item>, ws: seq<Word>, i: nat, j: nat)
    requires i <= j <= |ws|
    ensures MadeOf(items, ws, i, j) ==
      Simple(ArgWords(items, ws, SpecialFrom(ws, i, j)), LastName(Ins(items)), LastName(Outs(items)), FlagsOf(items, IsLast(ws, j)))
    ensures !FlagsOf(items, IsLast(ws, j)).amp
  {
  }

  lemma RedirectedSays(t: Command, ws: seq<Word>, i: nat, j: nat)
    requires j <= |ws|
    ensures Redirected(t, ws, i, j) <==> (t.Simple? || t.Paren?) && LefSaid(t.lef, ws, i, j) && RitSaid(t.rit, ws, i, j) && FlagsSaid(t.flags, ws, i, j)
  {
  }

  lemma OneIn(items: seq<Item>, fl: Context, specp: bool)
    requires Fits(items, fl, specp)
    ensures |Ins(items)| <= 1 && (!specp ==> |Blocks(items)| <= 1)
  {
  }

  lemma LeafToWords(t: Command, items: seq<Item>, ws: seq<Word>, i: nat, j: nat, fl: Context)
    requires i <= j <= |ws| && Spelled(items, ws, i, j) && LeafOf(t, items, ws, i, j, fl)
    ensures LeafBy(t, ws, i, j, fl)
  {
    hide *;
    LeafSays(t, items, ws, i, j, fl);
    ItemsSay(items, ws, i, j, fl);
    MadeSays(items, ws, i, j);
    OneIn(items, fl, SpecialFrom(ws, i, j));
    RedirectedSays(t, ws, i, j);
    LeafBySays(t, ws, i, j, fl);
    if !SpecialFrom(ws, i, j) && Blocks(items) != [] {
      var a, b := GroupFrom(items, ws, i, j);
    }
  }

  lemma LeafIs(t: Command, items: seq<Item>, ws: seq<Word>, i: nat, j: nat, fl: Context)
    requires i <= j <= |ws| && Fits(items, fl, SpecialFrom(ws, i, j))
    requires SpecialFrom(ws, i, j) || Blocks(items) == [] ==> t == MadeOf(items, ws, i, j) && t.args != []
    requires !SpecialFrom(ws, i, j) && Blocks(items) != [] ==>
      && ArgWords(items, ws, false) == [] && t.Paren? && Blocks(items)[0].Block?
      && t == CshGrammar.Paren(t.sub, LastName(Ins(items)), LastName(Outs(items)), FlagsOf(items, IsLast(ws, j)))
      && var b := Blocks(items)[0]; i <= b.from && b.n >= 2 && b.from + b.n <= j && OfSyn0(t.sub, ws, b.from + 1, b.from + b.n - 1, HERE)
    ensures LeafOf(t, items, ws, i, j, fl)
  {
  }

  lemma LeafFromWords(t: Command, items: seq<Item>, ws: seq<Word>, i: nat, j: nat, fl: Context)
    requires i <= j <= |ws| && Spelled(items, ws, i, j) && LeafBy(t, ws, i, j, fl)
    ensures LeafOf(t, items, ws, i, j, fl)
  {
    hide *;
    ItemsSay(items, ws, i, j, fl);
    MadeSays(items, ws, i, j);
    LeafBySays(t, ws, i, j, fl);
    RedirectedSays(t, ws, i, j);
    OneIn(items, fl, SpecialFrom(ws, i, j));
    SaidOnce(t.lef, t.rit, t.flags, LastName(Ins(items)), LastName(Outs(items)), FlagsOf(items, IsLast(ws, j)), ws, i, j);
    assert t.flags.(amp := false) == t.flags;
    if !SpecialFrom(ws, i, j) && Blocks(items) != [] {
      var a: nat, b: nat :| i <= a < b < j && GroupAt(ws, i, j, a, b) && OfSyn0(t.sub, ws, a + 1, b, HERE);
      GroupIs(items, ws, i, j, a, b);
    }
    LeafIs(t, items, ws, i, j, fl);
  }

  /** What syn3 accepts, and what it makes of it, in terms of the words. */
  lemma Syn3ByWords(t: Command, ws: seq<Word>, i: nat, j: nat, fl: Context)
    requires i <= j <= |ws|
    ensures OfSyn3(t, ws, i, j, fl) <==> LeafBy(t, ws, i, j, fl)
  {
    hide LeafOf, LeafBy, Spelled, Tidy;
    TidyIsSpelled(ws, i, j);
    LeafBySays(t, ws, i, j, fl);
    if items :| Spelled(items, ws, i, j) && LeafOf(t, items, ws, i, j, fl) {
      LeafToWords(t, items, ws, i, j, fl);
    }
    if LeafBy(t, ws, i, j, fl) {
      var items :| Spelled(items, ws, i, j);
      LeafFromWords(t, items, ws, i, j, fl);
    }
  }
}
