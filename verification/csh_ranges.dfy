/** src/bin/csh/parse.c: the words of the items of a command, and ranges of words around operators. */
module CshRanges {
  import opened CshWords
  import opened CshGrammar

  function Total(items: seq<Item>): nat {
    if items == [] then 0 else Total(items[..|items| - 1]) + Len(items[|items| - 1])
  }

  lemma {:induction false} SpelledTotal(items: seq<Item>, ws: seq<Word>, i: nat, j: nat)
    requires j <= |ws| && Spelled(items, ws, i, j)
    ensures j == i + Total(items)
  {
    if items != [] {
      SpelledTotal(items[..|items| - 1], ws, i, j - Len(items[|items| - 1]));
    }
  }

  /** Where the k-th item is. */
  lemma {:induction false} SpelledAt(items: seq<Item>, ws: seq<Word>, i: nat, j: nat, k: nat)
    requires j <= |ws| && k < |items| && Spelled(items, ws, i, j)
    ensures var p := i + Total(items[..k]);
      && p + Len(items[k]) <= j && Len(items[k]) > 0 && ItemAt(items[k], ws, p)
      && Spelled(items[..k], ws, i, p)
  {
    var init, it := items[..|items| - 1], items[|items| - 1];
    if k < |init| {
      SpelledAt(init, ws, i, j - Len(it), k);
      assert init[..k] == items[..k];
    } else {
      SpelledTotal(init, ws, i, j - Len(it));
      ItemIsLong(it, ws, j - Len(it));
    }
  }

  lemma ItemIsLong(it: Item, ws: seq<Word>, p: nat)
    requires p + Len(it) <= |ws| && ItemAt(it, ws, p)
    ensures Len(it) > 0
  {
  }

  lemma SameItem(a: Item, b: Item, ws: seq<Word>, p: nat)
    requires p + Len(a) <= |ws| && p + Len(b) <= |ws| && ItemAt(a, ws, p) && ItemAt(b, ws, p)
    ensures a == b
  {
  }

  /** Two lists that spell the words from i on go together as far as both go. */
  lemma {:induction false} SamePrefix(a: seq<Item>, b: seq<Item>, ws: seq<Word>, i: nat, o: nat, j: nat, k: nat)
    requires o <= j <= |ws| && Spelled(a, ws, i, o) && Spelled(b, ws, i, j) && k <= |a|
    ensures k <= |b| && a[..k] == b[..k]
  {
    hide Spelled, ItemAt, Len, Total;
    assert b[..|b|] == b;
    if k > 0 {
      SamePrefix(a, b, ws, i, o, j, k - 1);
      SpelledAt(a, ws, i, o, k - 1);
      SpelledTotal(b, ws, i, j);
      SpelledAt(b, ws, i, j, k - 1);
      SameItem(a[k - 1], b[k - 1], ws, i + Total(a[..k - 1]));
    }
  }

  /** A range is spelled by one list of items only. */
  lemma SameItems(a: seq<Item>, b: seq<Item>, ws: seq<Word>, i: nat, j: nat)
    requires j <= |ws| && Spelled(a, ws, i, j) && Spelled(b, ws, i, j)
    ensures a == b
  {
    SamePrefix(a, b, ws, i, j, j, |a|);
    SamePrefix(b, a, ws, i, j, j, |b|);
    assert a[..|a|] == a && b[..|b|] == b;
  }

  /** One item more. */
  lemma SpelledMore(items: seq<Item>, it: Item, ws: seq<Word>, i: nat, p: nat)
    requires p + Len(it) <= |ws| && Spelled(items, ws, i, p) && i <= p && ItemAt(it, ws, p)
    ensures Spelled(items + [it], ws, i, p + Len(it))
  {
    assert (items + [it])[..|items|] == items;
  }

  // Ranges around an operator

  lemma AllowedMore(ws: seq<Word>, i: nat, q: nat, k: nat, m: nat, n: nat)
    requires i <= q <= k < |ws| && n <= m && Allowed(ws, q, k, m)
    ensures Allowed(ws, i, k, n)
  {
  }

  /** Two ranges with what is between them: no parenthesis, and allowed. */
  lemma RangeAround(ws: seq<Word>, i: nat, p: nat, q: nat, j: nat, m: nat, n: nat)
    requires i <= p <= q <= j <= |ws| && q <= p + 2 && Range(ws, i, p, m) && Range(ws, q, j, n) && n <= m
    requires forall k {:trigger ws[k]} :: p <= k < q ==> CshWords.Paren(ws[k]) == 0 && Allowed(ws, i, k, n)
    ensures Range(ws, i, j, n)
  {
    BalancedAround(ws, i, p, q, j);
    forall k | i <= k < j && Level(ws, i, k) == 0 ensures Allowed(ws, i, k, n) {
      if k < p {
        AllowedMore(ws, i, i, k, m, n);
      } else if k < q {
        assert CshWords.Paren(ws[k]) == 0;
      } else {
        LevelSplit(ws, i, q, k);
        AllowedMore(ws, i, q, k, n, n);
      }
    }
  }

  lemma BalancedAround(ws: seq<Word>, i: nat, p: nat, q: nat, j: nat)
    requires i <= p <= q <= j <= |ws| && q <= p + 2 && Balanced(ws, i, p) && Balanced(ws, q, j)
    requires forall k {:trigger ws[k]} :: p <= k < q ==> CshWords.Paren(ws[k]) == 0
    ensures Balanced(ws, i, j) && Level(ws, i, p) == Level(ws, i, q) == 0
  {
    assert q > p ==> CshWords.Paren(ws[p]) == 0;
    assert q > p + 1 ==> CshWords.Paren(ws[p + 1]) == 0;
    forall k | q <= k <= j ensures Level(ws, i, k) == Level(ws, q, k) {
      LevelSplit(ws, i, q, k);
    }
  }

  lemma BlockRange(ws: seq<Word>, p: nat, n: nat)
    requires p + n <= |ws| && IsBlock(ws, p, n)
    ensures Range(ws, p, p + n, 5) && n >= 2 && First(ws[p + n - 1]) == ')' && Balanced(ws, p + 1, p + n - 1)
  {
    assert Level(ws, p, p + 1) == Level(ws, p, p) + 1 == 1;
    assert Level(ws, p, p + n - 1) == 1;
    var q := p + 1;
    forall k {:trigger Level(ws, q, k)} | q <= k < p + n ensures Level(ws, q, k) == Level(ws, p, k) - 1 >= 0 {
      LevelSplit(ws, p, q, k);
    }
    assert Allowed(ws, p, p, 5);
  }

  lemma ItemRange(it: Item, ws: seq<Word>, p: nat)
    requires p + Len(it) <= |ws| && ItemAt(it, ws, p)
    ensures Range(ws, p, p + Len(it), 5) && Len(it) > 0 && First(ws[p + Len(it) - 1]) !in ['>', '|']
  {
    if it.Block? {
      BlockRange(ws, p, it.n);
    } else {
      forall k | p <= k < p + Len(it) ensures CshWords.Paren(ws[k]) == 0 && Allowed(ws, p, k, 5) {
      }
      FlatRange(ws, p, p + Len(it));
    }
  }

  lemma {:induction false} FlatLevel(ws: seq<Word>, i: nat, j: nat)
    requires j <= |ws| && forall k :: i <= k < j ==> CshWords.Paren(ws[k]) == 0
    ensures Level(ws, i, j) == 0
  {
    if i < j {
      FlatLevel(ws, i, j - 1);
    }
  }

  lemma FlatRange(ws: seq<Word>, i: nat, j: nat)
    requires i <= j <= |ws| && forall k {:trigger ws[k]} :: i <= k < j ==> CshWords.Paren(ws[k]) == 0 && Allowed(ws, i, k, 5)
    ensures Range(ws, i, j, 5)
  {
    forall k: nat | i <= k <= j ensures Level(ws, i, k) == 0 {
      FlatLevel(ws, i, k);
    }
  }

  /** The last item, and what it adds to the arguments and the groups. */
  lemma Unspelled(items: seq<Item>, ws: seq<Word>, i: nat, j: nat)
    requires j <= |ws| && items != [] && Spelled(items, ws, i, j)
    ensures var init, it := items[..|items| - 1], items[|items| - 1]; var q := j - Len(it);
      && i <= q && ItemAt(it, ws, q) && Spelled(init, ws, i, q)
      && (it.Block? ==> it.from == q && IsBlock(ws, q, it.n))
      && Blocks(items) == Blocks(init) + (if it.Block? then [it] else [])
      && forall specp {:trigger ArgWords(items, ws, specp)} :: ArgWords(items, ws, specp) == ArgWords(init, ws, specp) +
           if it.Arg? then [it.word] else if it.Block? && specp then ws[q..j] else []
  {
    SpelledRange(items[..|items| - 1], ws, i, j - Len(items[|items| - 1]));
  }

  lemma {:induction false} SpelledRange(items: seq<Item>, ws: seq<Word>, i: nat, j: nat)
    requires j <= |ws| && Spelled(items, ws, i, j)
    ensures i <= j && Range(ws, i, j, 5) && (items != [] ==> i < j && First(ws[j - 1]) !in ['>', '|'])
  {
    if items != [] {
      var it := items[|items| - 1];
      var p := j - Len(it);
      SpelledRange(items[..|items| - 1], ws, i, p);
      ItemRange(it, ws, p);
      hide Spelled, ItemAt, Len, Range;
      RangeAround(ws, i, p, p, j, 5, 5);
    }
  }
}
