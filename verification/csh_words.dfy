/** src/bin/csh/parse.c: the words of a command line, and which of them are arguments. */
module CshWords {
  import opened Seqs

  type Word = string

  /** The first character of a word, or a NUL. */
  function First(w: Word): char {
    if w == "" then '\0' else w[0]
  }

  predicate IsOrOr(w: Word) {
    |w| > 1 && w[0] == '|' && w[1] == '|'
  }

  predicate IsAndAnd(w: Word) {
    |w| > 1 && w[0] == '&' && w[1] == '&'
  }

  /** A word that syntax skips. */
  predicate IsSep(w: Word) {
    First(w) in [';', '&', '\n']
  }

  predicate IsRelPar(w: Word) {
    First(w) in ['<', '>', '(', ')']
  }

  /** The words that srchx finds and syn3 asks for. */
  predicate IsKeyword(w: Word) {
    w in ["@", "exit", "foreach", "if", "set", "switch", "while"]
  }

  // Parentheses

  function Paren(w: Word): int {
    if First(w) == '(' then 1 else if First(w) == ')' then -1 else 0
  }

  /** How deep in parentheses the word at k is, from i on. */
  function Level(ws: seq<Word>, i: nat, k: nat): int
    requires k <= |ws|
  {
    if k <= i then 0 else Level(ws, i, k - 1) + Paren(ws[k - 1])
  }

  ghost predicate Balanced(ws: seq<Word>, i: nat, j: nat)
    requires j <= |ws|
  {
    Level(ws, i, j) == 0 && forall k :: i <= k <= j ==> Level(ws, i, k) >= 0
  }

  lemma {:induction false} LevelSplit(ws: seq<Word>, i: nat, p: nat, k: nat)
    requires i <= p <= k <= |ws|
    ensures Level(ws, i, k) == Level(ws, i, p) + Level(ws, p, k)
  {
    if p < k {
      LevelSplit(ws, i, p, k - 1);
    }
  }

  // Which words are arguments

  /** Where a reader of the line is: before the first word of a command, but for any number of else;
      in a command that starts with a keyword; in how many parentheses of such a command; and after
      a redirection (1 after >, 2 after >&, 3 before the file name), or not (0). */
  datatype St = St(start: bool, special: bool, depth: nat, redir: nat)

  const START := St(true, false, 0, 0)
  const AFTER := St(false, false, 0, 0)

  function Next(st: St, w: Word): St {
    if st.depth > 0 then
      st.(depth := if First(w) == '(' then st.depth + 1 else if First(w) == ')' then st.depth - 1 else st.depth)
    else if st.redir > 0 then
      st.(redir := if st.redir == 1 && w == "&" then 2 else if st.redir < 3 && w == "!" then 3 else 0)
    else if First(w) == '(' then if st.special then st.(depth := 1) else START
    else if First(w) == ')' then AFTER
    else if First(w) == '|' || IsSep(w) then START
    else if First(w) == '>' then st.(start := false, redir := 1)
    else if First(w) == '<' then st.(start := false, redir := 3)
    else if st.start && w == "else" then st
    else st.(start := false, special := if st.start then IsKeyword(w) else st.special)
  }

  /** An argument: no operator, no separator, no grouping parenthesis, and no part of a redirection. */
  predicate IsArg(st: St, w: Word) {
    st.depth > 0 || (st.redir == 0 && if First(w) == '(' then st.special else First(w) !in [')', '|', ';', '&', '\n', '>', '<'])
  }

  function End(ws: seq<Word>, i: nat, j: nat, st: St): St
    requires j <= |ws|
    decreases j - i
  {
    if i >= j then st else End(ws, i + 1, j, Next(st, ws[i]))
  }

  /** The arguments among the words from i to j, for a reader in the state st. */
  function Args(ws: seq<Word>, i: nat, j: nat, st: St): seq<Word>
    requires j <= |ws|
    decreases j - i
  {
    if i >= j then [] else (if IsArg(st, ws[i]) then [ws[i]] else []) + Args(ws, i + 1, j, Next(st, ws[i]))
  }

  lemma {:induction false} ArgsSplit(ws: seq<Word>, i: nat, p: nat, j: nat, st: St)
    requires i <= p <= j <= |ws|
    ensures End(ws, i, j, st) == End(ws, p, j, End(ws, i, p, st))
    ensures Args(ws, i, j, st) == Args(ws, i, p, st) + Args(ws, p, j, End(ws, i, p, st))
    decreases p - i
  {
    if i < p {
      ArgsSplit(ws, i + 1, p, j, Next(st, ws[i]));
      Assoc(if IsArg(st, ws[i]) then [ws[i]] else [], Args(ws, i + 1, p, Next(st, ws[i])), Args(ws, p, j, End(ws, i, p, st)));
    } else {
      assert [] + Args(ws, i, j, st) == Args(ws, i, j, st);
    }
  }

  lemma ArgsOne(ws: seq<Word>, i: nat, st: St)
    requires i < |ws|
    ensures End(ws, i, i + 1, st) == Next(st, ws[i])
    ensures Args(ws, i, i + 1, st) == if IsArg(st, ws[i]) then [ws[i]] else []
  {
    assert End(ws, i + 1, i + 1, Next(st, ws[i])) == Next(st, ws[i]);
    assert Args(ws, i + 1, i + 1, Next(st, ws[i])) == [];
  }

  /** One word more. */
  lemma ArgsNext(ws: seq<Word>, i: nat, p: nat, st: St)
    requires i <= p < |ws|
    ensures var e := End(ws, i, p, st);
      && End(ws, i, p + 1, st) == Next(e, ws[p])
      && Args(ws, i, p + 1, st) == Args(ws, i, p, st) + if IsArg(e, ws[p]) then [ws[p]] else []
  {
    ArgsSplit(ws, i, p, p + 1, st);
    ArgsOne(ws, p, End(ws, i, p, st));
  }

  /** Outside parentheses and redirections. */
  predicate Settled(st: St) {
    st.depth == 0 && st.redir == 0
  }

  /** A range that ends settled, an operator, and what comes after it. */
  lemma ArgsAround(ws: seq<Word>, i: nat, p: nat, j: nat)
    requires i <= p < j <= |ws| && Settled(End(ws, i, p, START)) && (First(ws[p]) == '|' || IsSep(ws[p]))
    ensures Args(ws, i, j, START) == Args(ws, i, p, START) + Args(ws, p + 1, j, START)
    ensures End(ws, i, j, START) == End(ws, p + 1, j, START)
    ensures Args(ws, p, j, START) == Args(ws, p + 1, j, START) && End(ws, p, j, START) == End(ws, p + 1, j, START)
  {
    ArgsSplit(ws, i, p, j, START);
    assert Next(End(ws, i, p, START), ws[p]) == START;
    assert [] + Args(ws, p + 1, j, START) == Args(ws, p + 1, j, START);
  }

  // What a range may hold outside parentheses

  /** A word outside parentheses, in a range that syn1 (1), syn1a (2), syn1b (3), syn2 (4) or syn3 (5)
      is given. */
  ghost predicate Allowed(ws: seq<Word>, i: nat, k: nat, n: nat)
    requires k < |ws|
  {
    && (First(ws[k]) == ';' || First(ws[k]) == '\n' ==> n < 2)
    && (IsOrOr(ws[k]) ==> n < 3)
    && (IsAndAnd(ws[k]) ==> n < 4)
    && (First(ws[k]) == '|' ==> n < 5)
    && (First(ws[k]) == '&' && !IsAndAnd(ws[k]) ==>
      ws[k] == "&" && k > i && (First(ws[k - 1]) == '>' || (First(ws[k - 1]) == '|' && !IsOrOr(ws[k - 1]))))
  }

  /** All the words outside parentheses, up to p, are allowed. */
  ghost predicate Scanned(ws: seq<Word>, i: nat, p: nat, n: nat)
    requires p <= |ws|
  {
    forall k {:trigger Allowed(ws, i, k, n)} :: i <= k < p && Level(ws, i, k) == 0 ==> Allowed(ws, i, k, n)
  }

  ghost predicate Range(ws: seq<Word>, i: nat, j: nat, n: nat)
    requires j <= |ws|
  {
    Balanced(ws, i, j) && Scanned(ws, i, j, n)
  }

  /** Cut at a word outside parentheses, before it. */
  lemma RangeBefore(ws: seq<Word>, i: nat, p: nat, j: nat, n: nat, m: nat)
    requires i <= p < j <= |ws| && Range(ws, i, j, n) && Level(ws, i, p) == 0 && Scanned(ws, i, p, m)
    ensures Range(ws, i, p, m)
  {
  }

  /** And after it. */
  lemma RangeAfter(ws: seq<Word>, i: nat, q: nat, j: nat, n: nat)
    requires i < q <= j <= |ws| && Range(ws, i, j, n) && Level(ws, i, q) == 0
    requires q < j && First(ws[q]) == '&' && !IsAndAnd(ws[q]) ==>
      !(First(ws[q - 1]) == '>' || (First(ws[q - 1]) == '|' && !IsOrOr(ws[q - 1])))
    ensures Range(ws, q, j, n)
  {
    forall k | q <= k <= j ensures Level(ws, q, k) == Level(ws, i, k) {
      LevelSplit(ws, i, q, k);
    }
    forall k | q <= k < j && Level(ws, q, k) == 0 ensures Allowed(ws, q, k, n) {
      assert Allowed(ws, i, k, n);
    }
  }

  // The words that syn3 counts and stores

  /** Whether the command from i on starts with a keyword, after any number of else. */
  predicate SpecialFrom(ws: seq<Word>, i: nat, j: nat)
    requires j <= |ws|
    decreases j - i
  {
    i < j && if ws[i] == "else" then SpecialFrom(ws, i + 1, j) else IsKeyword(ws[i])
  }

  /** What the first loop of syn3 counts for the word at k of the range from i to j. */
  function Counts(ws: seq<Word>, i: nat, j: nat, k: nat, specp: bool): int
    requires k < j <= |ws|
  {
    var c := First(ws[k]);
    if c == '(' || c == ')' then if specp then 1 else 0
    else if c == '>' || c == '<' then
      if Level(ws, i, k) != 0 then if specp then 1 else 0
      else if k + 1 == j || IsRelPar(ws[k + 1]) then 0 else -1
    else if !specp && Level(ws, i, k) != 0 then 0
    else 1
  }

  function Sum(ws: seq<Word>, i: nat, j: nat, a: nat, b: nat, specp: bool): int
    requires b <= j <= |ws|
  {
    if b <= a then 0 else Sum(ws, i, j, a, b - 1, specp) + Counts(ws, i, j, b - 1, specp)
  }

  lemma {:induction false} SumSplit(ws: seq<Word>, i: nat, j: nat, a: nat, p: nat, b: nat, specp: bool)
    requires a <= p <= b <= j <= |ws|
    ensures Sum(ws, i, j, a, b, specp) == Sum(ws, i, j, a, p, specp) + Sum(ws, i, j, p, b, specp)
    decreases b
  {
    if p < b {
      SumSplit(ws, i, j, a, p, b - 1, specp);
    }
  }

  /** What a redirection takes away, its file name gives back. */
  lemma {:induction false} TailSum(ws: seq<Word>, i: nat, j: nat, a: nat, specp: bool)
    requires i <= a <= j <= |ws|
    ensures Sum(ws, i, j, a, j, specp) >= 0
    decreases j - a
  {
    if a < j {
      SumSplit(ws, i, j, a, a + 1, j, specp);
      assert Sum(ws, i, j, a, a, specp) == 0;
      if Counts(ws, i, j, a, specp) < 0 {
        assert Level(ws, i, a + 1) == Level(ws, i, a);
        SumSplit(ws, i, j, a, a + 2, j, specp);
        assert Sum(ws, i, j, a, a + 1, specp) == -1;
        TailSum(ws, i, j, a + 2, specp);
      } else {
        TailSum(ws, i, j, a + 1, specp);
      }
    }
  }

  /** There is room for the word at p, when no more than what was counted before it is stored. */
  lemma RoomFor(ws: seq<Word>, i: nat, j: nat, p: nat, n: nat, specp: bool)
    requires i <= p < j <= |ws| && n <= Sum(ws, i, j, i, p, specp) && Counts(ws, i, j, p, specp) == 1
    ensures n < Sum(ws, i, j, i, j, specp) && n + 1 <= Sum(ws, i, j, i, p + 1, specp)
  {
    SumSplit(ws, i, j, i, p + 1, j, specp);
    TailSum(ws, i, j, p + 1, specp);
  }

  // Lines that are accepted

  /** A word that is neither an operator nor a separator, a parenthesis or a redirection. */
  predicate Ordinary(w: Word) {
    First(w) !in ['(', ')', '<', '>', '|', '&', ';', '\n']
  }

  predicate IsOperator(w: Word) {
    First(w) == '|' || IsAndAnd(w)
  }

  /** No parentheses and no redirections, and ordinary words on both sides of every operator. */
  ghost predicate Plain(ws: seq<Word>, i: nat, j: nat)
    requires j <= |ws|
  {
    forall k {:trigger ws[k]} :: i <= k < j ==>
      && First(ws[k]) !in ['(', ')', '<', '>']
      && (IsOperator(ws[k]) ==> i < k && k + 1 < j && Ordinary(ws[k - 1]) && Ordinary(ws[k + 1]))
  }

  /** A plain range with a command at its start. */
  ghost predicate Begun(ws: seq<Word>, i: nat, j: nat)
    requires j <= |ws|
  {
    i < j && Ordinary(ws[i]) && Plain(ws, i, j)
  }

  /** Cut at an operator or a separator. */
  lemma PlainCut(ws: seq<Word>, i: nat, p: nat, j: nat)
    requires i <= p < j <= |ws| && Begun(ws, i, j) && (IsOperator(ws[p]) || IsSep(ws[p]))
    ensures Begun(ws, i, p) && Plain(ws, p + 1, j)
    ensures IsOperator(ws[p]) ==> Begun(ws, p + 1, j)
  {
    assert p > i;
    var before, at, after := ws[p - 1], ws[p], if p + 1 < j then ws[p + 1] else "";
    assert IsOperator(before) ==> Ordinary(at);
    assert p + 1 < j && IsOperator(after) ==> Ordinary(at);
  }

  lemma BegunSays(ws: seq<Word>, i: nat, j: nat)
    requires j <= |ws| && Begun(ws, i, j)
    ensures i < j && Ordinary(ws[i])
  {
  }

  /** A separator in front changes nothing. */
  lemma PlainSkip(ws: seq<Word>, i: nat, j: nat)
    requires i < j <= |ws| && IsSep(ws[i])
    ensures Plain(ws, i, j) ==> Plain(ws, i + 1, j)
    ensures Plain(ws, i + 1, j) && !IsAndAnd(ws[i]) ==> Plain(ws, i, j)
  {
    var first, next := ws[i], if i + 1 < j then ws[i + 1] else "";
    assert Plain(ws, i, j) && i + 1 < j && IsOperator(next) ==> Ordinary(first);
  }

  lemma PlainBegins(ws: seq<Word>, i: nat, j: nat)
    requires i < j <= |ws| && !IsSep(ws[i])
    ensures Plain(ws, i, j) ==> Begun(ws, i, j)
  {
  }
}
