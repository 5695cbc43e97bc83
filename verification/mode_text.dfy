/** src/bin/chmod/setmode.c: the grammar of symbolic modes, what a mode asks for, and the bit
    commands that setmode makes of it. */
module ModeText {
  import opened Seqs

  datatype Option<T> = None | Some(value: T)

  /** op and perms of one action: "g+rx" has the action Action('+', "rx"). */
  datatype Action = Action(op: char, perms: string)

  datatype Clause = Clause(who: string, actions: seq<Action>)

  predicate IsWho(c: char) {
    c in {'a', 'u', 'g', 'o'}
  }

  predicate IsOp(c: char) {
    c in {'+', '-', '='}
  }

  predicate IsCopy(c: char) {
    c in {'u', 'g', 'o'}
  }

  predicate IsPerm(c: char) {
    c in {'r', 's', 't', 'w', 'X', 'x'} || IsCopy(c)
  }

  /** How many characters at the start of p name users. */
  function WhoLen(p: string): (k: nat)
    ensures k <= |p| && forall i :: 0 <= i < k ==> IsWho(p[i])
    ensures k < |p| ==> !IsWho(p[k])
  {
    if p == "" || !IsWho(p[0]) then 0 else 1 + WhoLen(p[1..])
  }

  /** How many characters at the start of p are permissions or copies. */
  function PermLen(p: string): (k: nat)
    ensures k <= |p| && forall i :: 0 <= i < k ==> IsPerm(p[i])
    ensures k < |p| ==> !IsPerm(p[k])
  {
    if p == "" || !IsPerm(p[0]) then 0 else 1 + PermLen(p[1..])
  }

  /** A list of clauses. */
  function ParseClauses(p: string): Option<seq<Clause>>
    decreases |p|, 1
  {
    var k := WhoLen(p);
    match ParseActions(p[k..])
    case None => None
    case Some(rest) => Some([Clause(p[..k], rest.0)] + rest.1)
  }

  /** The rest of a clause, from an operator on, and the clauses after it. */
  function ParseActions(p: string): Option<(seq<Action>, seq<Clause>)>
    decreases |p|, 0
  {
    if p == "" || !IsOp(p[0]) then None
    else
      var k := PermLen(p[1..]);
      var a, q := Action(p[0], p[1..][..k]), p[1..][k..];
      if q == "" then Some(([a], []))
      else if q[0] == ',' then
        match ParseClauses(q[1..])
        case None => None
        case Some(cs) => Some(([a], cs))
      else
        match ParseActions(q)
        case None => None
        case Some(rest) => Some(([a] + rest.0, rest.1))
  }

  // The grammar.

  function ShowAction(a: Action): string {
    [a.op] + a.perms
  }

  function ShowActions(as': seq<Action>): string {
    if as' == [] then "" else ShowAction(as'[0]) + ShowActions(as'[1..])
  }

  function ShowClause(c: Clause): string {
    c.who + ShowActions(c.actions)
  }

  function ShowClauses(cs: seq<Clause>): string
    requires cs != []
  {
    ShowClause(cs[0]) + ShowMore(cs[1..])
  }

  function ShowMore(cs: seq<Clause>): string {
    if cs == [] then "" else "," + ShowClause(cs[0]) + ShowMore(cs[1..])
  }

  ghost predicate GoodAction(a: Action) {
    IsOp(a.op) && forall i :: 0 <= i < |a.perms| ==> IsPerm(a.perms[i])
  }

  ghost predicate GoodActions(as': seq<Action>) {
    as' != [] && forall i :: 0 <= i < |as'| ==> GoodAction(as'[i])
  }

  ghost predicate GoodClause(c: Clause) {
    (forall i :: 0 <= i < |c.who| ==> IsWho(c.who[i])) && GoodActions(c.actions)
  }

  ghost predicate GoodClauses(cs: seq<Clause>) {
    forall i :: 0 <= i < |cs| ==> GoodClause(cs[i])
  }

  lemma {:induction false} WhoSpan(s: string, t: string)
    requires (forall i :: 0 <= i < |s| ==> IsWho(s[i])) && (t != "" ==> !IsWho(t[0]))
    ensures WhoLen(s + t) == |s| && (s + t)[..|s|] == s && (s + t)[|s|..] == t
  {
    if s == "" {
      assert s + t == t;
    } else {
      assert (s + t)[1..] == s[1..] + t;
      WhoSpan(s[1..], t);
    }
  }

  lemma {:induction false} PermSpan(s: string, t: string)
    requires (forall i :: 0 <= i < |s| ==> IsPerm(s[i])) && (t != "" ==> !IsPerm(t[0]))
    ensures PermLen(s + t) == |s| && (s + t)[..|s|] == s && (s + t)[|s|..] == t
  {
    if s == "" {
      assert s + t == t;
    } else {
      assert (s + t)[1..] == s[1..] + t;
      PermSpan(s[1..], t);
    }
  }

  /** One action is parsed, whatever comes next. */
  lemma ParseOne(a: Action, t: string)
    requires GoodAction(a) && (t != "" ==> !IsPerm(t[0]))
    ensures ParseActions(ShowAction(a) + t) ==
      if t == "" then Some(([a], []))
      else if t[0] == ',' then
        match ParseClauses(t[1..]) case None => None case Some(cs) => Some(([a], cs))
      else
        match ParseActions(t) case None => None case Some(rest) => Some(([a] + rest.0, rest.1))
  {
    var p := ShowAction(a) + t;
    Assoc([a.op], a.perms, t);
    assert p[0] == a.op && p[1..] == a.perms + t;
    PermSpan(a.perms, t);
  }

  lemma ShowFirst(as': seq<Action>, t: string)
    requires as' != []
    ensures ShowActions(as') + t == ShowAction(as'[0]) + (ShowActions(as'[1..]) + t)
  {
    Assoc(ShowAction(as'[0]), ShowActions(as'[1..]), t);
  }

  lemma ShowNothing(t: string)
    ensures ShowActions([]) + t == t
  {
  }

  lemma MoreFirst(cs: seq<Clause>)
    requires cs != []
    ensures var t := ShowMore(cs); t != "" && t[0] == ',' && t[1..] == ShowClause(cs[0]) + ShowMore(cs[1..])
  {
    Assoc(",", ShowClause(cs[0]), ShowMore(cs[1..]));
  }

  lemma OpFirst(as': seq<Action>, t: string)
    requires GoodActions(as')
    ensures var s := ShowActions(as') + t; s != "" && IsOp(s[0])
  {
    assert GoodAction(as'[0]);
    ShowFirst(as', t);
  }

  lemma GoodTail(as': seq<Action>)
    requires GoodActions(as') && as'[1..] != []
    ensures GoodActions(as'[1..])
  {
  }

  /** Whatever the grammar derives is parsed back. */
  lemma {:induction false} ParseShown(as': seq<Action>, cs: seq<Clause>)
    requires GoodActions(as') && GoodClauses(cs)
    ensures ParseActions(ShowActions(as') + ShowMore(cs)) == Some((as', cs))
    decreases |cs|, |as'|
  {
    hide ShowActions, ShowMore, ParseActions, ParseClauses, ShowAction;
    var a, t := as'[0], ShowActions(as'[1..]) + ShowMore(cs);
    ShowFirst(as', ShowMore(cs));
    assert as' == [a] + as'[1..];
    if as'[1..] != [] {
      GoodTail(as');
      OpFirst(as'[1..], ShowMore(cs));
      ParseOne(a, t);
      ParseShown(as'[1..], cs);
    } else {
      ShowNothing(ShowMore(cs));
      assert as' == [a] && as'[1..] == [];
      assert t == ShowMore(cs);
      if cs != [] {
        MoreFirst(cs);
        ParseOne(a, t);
        ParseShownClauses(cs);
      } else {
        NoMore();
        ParseOne(a, t);
      }
    }
  }

  lemma NoMore()
    ensures ShowMore([]) == ""
  {
  }

  lemma {:induction false} ParseShownClauses(cs: seq<Clause>)
    requires GoodClauses(cs) && cs != []
    ensures ParseClauses(ShowClause(cs[0]) + ShowMore(cs[1..])) == Some(cs)
    decreases |cs|, 0
  {
    hide ShowActions, ShowMore, ParseActions;
    var c := cs[0];
    var t := ShowActions(c.actions) + ShowMore(cs[1..]);
    Assoc(c.who, ShowActions(c.actions), ShowMore(cs[1..]));
    OpFirst(c.actions, ShowMore(cs[1..]));
    WhoSpan(c.who, t);
    ParseShown(c.actions, cs[1..]);
    assert cs == [c] + cs[1..];
  }

  /** What is parsed, put together again. */
  ghost predicate Shows(p: string, as': seq<Action>, cs: seq<Clause>) {
    GoodActions(as') && GoodClauses(cs) && ShowActions(as') + ShowMore(cs) == p
  }

  lemma ShowsOne(a: Action, as': seq<Action>, cs: seq<Clause>, q: string)
    requires GoodAction(a) && Shows(q, as', cs)
    ensures Shows(ShowAction(a) + q, [a] + as', cs)
  {
    assert ([a] + as')[1..] == as';
    ShowFirst([a] + as', ShowMore(cs));
  }

  lemma ShowsLast(a: Action, cs: seq<Clause>)
    requires GoodAction(a) && GoodClauses(cs)
    ensures Shows(ShowAction(a) + ShowMore(cs), [a], cs)
  {
    assert [a][1..] == [];
    ShowFirst([a], ShowMore(cs));
    ShowNothing(ShowMore(cs));
  }

  lemma ShowsClause(who: string, as': seq<Action>, more: seq<Clause>, q: string)
    requires (forall i :: 0 <= i < |who| ==> IsWho(who[i])) && Shows(q, as', more)
    ensures var cs := [Clause(who, as')] + more; GoodClauses(cs) && ShowClauses(cs) == who + q
  {
    var cs := [Clause(who, as')] + more;
    assert cs[1..] == more;
    Assoc(who, ShowActions(as'), ShowMore(more));
  }

  lemma ShowsMore(cs: seq<Clause>)
    requires cs != []
    ensures ShowMore(cs) == "," + ShowClauses(cs)
  {
    Assoc(",", ShowClause(cs[0]), ShowMore(cs[1..]));
  }

  /** The parts of p that ParseActions looks at. */
  lemma Split(p: string)
    requires p != "" && IsOp(p[0])
    ensures var k := PermLen(p[1..]); var a := Action(p[0], p[1..][..k]); GoodAction(a) && p == ShowAction(a) + p[1..][k..]
  {
  }

  /** Whatever is parsed is derived by the grammar. */
  lemma {:induction false} ShowParsed(p: string)
    ensures ParseClauses(p).Some? ==>
      var cs := ParseClauses(p).value; cs != [] && GoodClauses(cs) && ShowClauses(cs) == p
    decreases |p|, 1
  {
    hide ShowClauses, ParseActions, Shows, GoodClauses;
    var k := WhoLen(p);
    ShowParsedActions(p[k..]);
    if ParseActions(p[k..]).Some? {
      var (as', more) := ParseActions(p[k..]).value;
      ShowsClause(p[..k], as', more, p[k..]);
      assert p == p[..k] + p[k..];
    }
  }

  /** One turn of ParseActions. */
  lemma ParsesOne(p: string)
    requires p != "" && IsOp(p[0])
    ensures var k := PermLen(p[1..]); var a, q := Action(p[0], p[1..][..k]), p[1..][k..];
      && (q == "" ==> ParseActions(p) == Some(([a], [])))
      && (q != "" && q[0] == ',' ==> ParseActions(p) == if ParseClauses(q[1..]).Some? then Some(([a], ParseClauses(q[1..]).value)) else None)
      && (q != "" && q[0] != ',' ==>
        ParseActions(p) == if ParseActions(q).Some? then Some(([a] + ParseActions(q).value.0, ParseActions(q).value.1)) else None)
  {
  }

  lemma ParsesNone(p: string)
    requires p == "" || !IsOp(p[0])
    ensures ParseActions(p).None?
  {
  }

  lemma {:induction false} ShowParsedActions(p: string)
    ensures ParseActions(p).Some? ==> var (as', cs) := ParseActions(p).value; Shows(p, as', cs)
    decreases |p|, 0
  {
    hide *;
    if p == "" || !IsOp(p[0]) {
      ParsesNone(p);
    } else {
      Split(p);
      ParsesOne(p);
      var k := PermLen(p[1..]);
      var a, q := Action(p[0], p[1..][..k]), p[1..][k..];
      if q == "" {
        NoMore();
        NoClauses();
        ShowsLast(a, []);
      } else if q[0] == ',' {
        ShowParsed(q[1..]);
        if ParseClauses(q[1..]).Some? {
          var cs := ParseClauses(q[1..]).value;
          assert q == "," + q[1..];
          ShowsMore(cs);
          ShowsLast(a, cs);
        }
      } else {
        ShowParsedActions(q);
        if ParseActions(q).Some? {
          var (as', cs) := ParseActions(q).value;
          ShowsOne(a, as', cs, q);
        }
      }
    }
  }

  lemma NoClauses()
    ensures GoodClauses([])
  {
  }

  /** p is a list of clauses, spelled out. */
  ghost predicate Spells(cs: seq<Clause>, p: string) {
    cs != [] && GoodClauses(cs) && ShowClauses(cs) == p
  }

  /** The parser accepts exactly the texts that the grammar derives, each with its only meaning. */
  lemma Unambiguous(p: string)
    ensures ParseClauses(p).Some? <==> exists cs :: Spells(cs, p)
    ensures forall cs :: Spells(cs, p) ==> ParseClauses(p) == Some(cs)
  {
    hide ParseClauses;
    ShowParsed(p);
    if ParseClauses(p).Some? {
      assert Spells(ParseClauses(p).value, p);
    }
    forall cs | Spells(cs, p) ensures ParseClauses(p) == Some(cs) {
      ParseShownClauses(cs);
    }
  }
}
