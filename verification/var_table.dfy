/** src/bin/csh/set.c: the operations on a tree of variables, as a finite map. */
module VarTable {
  import opened Names
  import opened VarTree
  import opened VarShape
  import opened VarStore

  ghost predicate AllLess(es: seq<Entry>, name: Name) {
    forall i :: 0 <= i < |es| ==> Less(es[i].name, name)
  }

  ghost predicate AllGreater(name: Name, es: seq<Entry>) {
    forall i :: 0 <= i < |es| ==> Less(name, es[i].name)
  }

  /** The search: which side of an entry a name belongs on. */
  lemma Aside(a: seq<Entry>, l: seq<Entry>, e: Entry, r: seq<Entry>, b: seq<Entry>, name: Name)
    requires Sorted(a + (l + [e] + r) + b)
    ensures Less(e.name, name) ==> AllLess(a + l + [e], name)
    ensures Less(name, e.name) ==> AllGreater(name, [e] + r + b)
  {
    var es := a + (l + [e] + r) + b;
    assert es == (a + l) + [e] + (r + b);
    SortedSplit(a + l, e, r + b);
    LessIsTotalOrder();
    assert [e] + r + b == [e] + (r + b);
  }

  ghost function Right(p: Path, t: Tree): Path
    requires t.Node?
  {
    In(p, true, t.x, t.e, t.bal, t.l)
  }

  ghost function Left(p: Path, t: Tree): Path
    requires t.Node?
  {
    In(p, false, t.x, t.e, t.bal, t.r)
  }

  /** A search for name has come down to t, by a path that runs between the entries below name
      and the entries above it. */
  ghost predicate Between(p: Path, t: Tree, name: Name, tree: Tree) {
    Plug(p, t) == tree && AllLess(Before(p), name) && AllGreater(name, After(p))
  }

  lemma SearchOn(p: Path, t: Tree, name: Name, tree: Tree)
    requires t.Node? && Sorted(Entries(tree)) && Between(p, t, name, tree)
    ensures Less(t.e.name, name) ==> Between(Right(p, t), t.r, name, tree)
    ensures Less(name, t.e.name) ==> Between(Left(p, t), t.l, name, tree)
  {
    PlugEntries(p, t);
    Aside(Before(p), Entries(t.l), t.e, Entries(t.r), After(p), name);
  }

  /** The test of the search for equal names. */
  lemma SameName(a: Name, b: Name)
    ensures First(a) == First(b) && Strcmp(a, b) == 0 <==> a == b
  {
    CompareEqual(a, b);
  }

  lemma SearchFails(p: Path, name: Name, tree: Tree)
    requires Sorted(Entries(tree)) && Between(p, Leaf, name, tree)
    ensures name !in MapOf(Entries(tree))
  {
    PlugEntries(p, Leaf);
    assert Entries(tree) == Before(p) + After(p);
    Inserted(Before(p), Entry(name, []), After(p));
  }

  lemma MiddleFound(a: seq<Entry>, l: seq<Entry>, e: Entry, r: seq<Entry>, b: seq<Entry>)
    requires Sorted(a + (l + [e] + r) + b)
    ensures var m := MapOf(a + (l + [e] + r) + b); e.name in m && m[e.name] == e.vec
  {
    MapOfKeys(a + (l + [e] + r) + b);
    assert (a + (l + [e] + r) + b)[|a| + |l|] == e;
  }

  lemma Found(p: Path, t: Tree, tree: Tree)
    requires t.Node? && Sorted(Entries(tree)) && Plug(p, t) == tree
    ensures t.e.name in MapOf(Entries(tree)) && MapOf(Entries(tree))[t.e.name] == t.e.vec
    ensures t.x in Nodes(tree)
  {
    PlugEntries(p, t);
    PlugNodes(p, t);
    MiddleFound(Before(p), Entries(t.l), t.e, Entries(t.r), After(p));
  }

  /** The way to the node x of t. */
  ghost function Locate(p: Path, t: Tree, x: VarEnt): (r: (Path, Tree))
    requires x in Nodes(t)
    ensures Plug(r.0, r.1) == Plug(p, t) && r.1.Node? && r.1.x == x
    decreases t
  {
    if x == t.x then (p, t)
    else if x in Nodes(t.l) then Locate(Left(p, t), t.l, x)
    else Locate(Right(p, t), t.r, x)
  }

  ghost function LastTree(t: Tree): (r: Tree)
    requires t.Node?
    ensures r.Node? && r.r.Leaf? && Nodes(r) <= Nodes(t)
  {
    if t.r.Leaf? then t else LastTree(t.r)
  }

  /** The way to the last node of t. */
  ghost function LastPath(p: Path, t: Tree): (r: Path)
    requires t.Node?
    ensures Plug(r, LastTree(t)) == Plug(p, t)
    ensures After(r) == After(p)
    ensures PathNodes(r) + Nodes(LastTree(t)) == PathNodes(p) + Nodes(t)
    decreases t
  {
    if t.r.Leaf? then p else LastPath(Right(p, t), t.r)
  }

  lemma {:induction false} LastEntries(p: Path, t: Tree)
    requires t.Node?
    ensures Before(LastPath(p, t)) + Entries(LastTree(t).l) + [LastTree(t).e] == Before(p) + Entries(t)
    decreases t
  {
    Spread(Before(p), Entries(t.l), [t.e], Entries(t.r));
    if t.r.Node? {
      LastEntries(Right(p, t), t.r);
    } else {
      assert Entries(t.r) == [];
    }
  }

  lemma Spread<T>(a: seq<T>, b: seq<T>, c: seq<T>, d: seq<T>)
    ensures a + (b + c + d) == a + b + c + d
    ensures a + b + c + [] == a + b + c
  {
  }

  lemma MiddleRemoved(a: seq<Entry>, l: seq<Entry>, e: Entry, r: seq<Entry>, b: seq<Entry>)
    requires Sorted(a + (l + [e] + r) + b)
    ensures var es := a + (l + r) + b;
      Sorted(es) && MapOf(es) == MapOf(a + (l + [e] + r) + b) - {e.name}
  {
    assert a + (l + [e] + r) + b == (a + l) + [e] + (r + b);
    assert a + (l + r) + b == (a + l) + (r + b);
    Removed(a + l, e, r + b);
  }

  lemma MiddleReplaced(a: seq<Entry>, l: seq<Entry>, e: Entry, r: seq<Entry>, b: seq<Entry>, vec: Words)
    requires Sorted(a + (l + [e] + r) + b)
    ensures var es := a + (l + [e.(vec := vec)] + r) + b;
      Sorted(es) && MapOf(es) == MapOf(a + (l + [e] + r) + b)[e.name := vec]
  {
    assert a + (l + [e] + r) + b == (a + l) + [e] + (r + b);
    assert a + (l + [e.(vec := vec)] + r) + b == (a + l) + [e.(vec := vec)] + (r + b);
    Replaced(a + l, e, r + b, vec);
  }

  ghost function WithVec(t: Tree, vec: Words): Tree
    requires t.Node?
  {
    t.(e := t.e.(vec := vec))
  }

  lemma RevaluedEntries(p: Path, t: Tree, vec: Words)
    requires t.Node? && Sorted(Entries(Plug(p, t)))
    ensures var u := Plug(p, WithVec(t, vec));
      && Sorted(Entries(u))
      && MapOf(Entries(u)) == MapOf(Entries(Plug(p, t)))[t.e.name := vec]
  {
    PlugEntries(p, t);
    PlugEntries(p, WithVec(t, vec));
    MiddleReplaced(Before(p), Entries(t.l), t.e, Entries(t.r), After(p), vec);
  }

  lemma RevaluedBalance(p: Path, t: Tree, vec: Words)
    requires t.Node? && Avl(Plug(p, t))
    ensures Avl(Plug(p, WithVec(t, vec))) && Nodes(Plug(p, WithVec(t, vec))) == Nodes(Plug(p, t))
  {
    PlugNodes(p, t);
    PlugNodes(p, WithVec(t, vec));
    AvlPlug(p, t);
    AvlPlug(p, WithVec(t, vec));
  }

  /** A new name for the hole. */
  lemma FilledEntries(p: Path, name: Name, vec: Words, tree: Tree)
    requires Sorted(Entries(tree)) && Between(p, Leaf, name, tree)
    ensures var es := Before(p) + [Entry(name, vec)] + After(p);
      Sorted(es) && MapOf(es) == MapOf(Entries(tree))[name := vec]
  {
    PlugEntries(p, Leaf);
    assert Entries(tree) == Before(p) + After(p);
    Inserted(Before(p), Entry(name, vec), After(p));
  }

  lemma LeafValue(t: Tree)
    requires t.Node? && t.l == t.r == Leaf && t.bal == 0
    ensures Entries(t) == [t.e] && Nodes(t) == {t.x} && Avl(t) && Height(t) == 1
  {
  }

  lemma FilledBalance(p: Path, tree: Tree)
    requires Avl(tree) && Plug(p, Leaf) == tree
    ensures AvlPath(p, 0) && Nodes(tree) == PathNodes(p)
  {
    PlugNodes(p, Leaf);
    AvlPlug(p, Leaf);
  }

  /** u with the entry of the last node of its left subtree in the place of its own. */
  ghost function Promoted(u: Tree): Tree
    requires u.Node? && u.l.Node?
  {
    u.(e := LastTree(u.l).e)
  }

  /** From a node down to the last node of its left subtree. */
  ghost function ToLast(p: Path, u: Tree): (r: Path)
    requires u.Node? && u.l.Node?
    ensures Plug(r, LastTree(u.l)) == Plug(p, u)
    ensures PathNodes(r) + Nodes(LastTree(u.l)) == PathNodes(p) + Nodes(u)
  {
    LastPath(Left(p, u), u.l)
  }

  lemma PromotedEntries(p: Path, u: Tree)
    requires u.Node? && u.l.Node?
    ensures var q := ToLast(p, Promoted(u));
      Before(q) + Entries(LastTree(u.l).l) + After(q) == Rest(p, u)
  {
    var t, q := LastTree(u.l), ToLast(p, Promoted(u));
    LastEntries(Left(p, Promoted(u)), u.l);
    calc {
      Before(q) + Entries(t.l) + After(q);
      Before(q) + Entries(t.l) + ([t.e] + Entries(u.r) + After(p));
      (Before(q) + Entries(t.l) + [t.e]) + Entries(u.r) + After(p);
      Before(p) + Entries(u.l) + Entries(u.r) + After(p);
      Before(p) + (Entries(u.l) + Entries(u.r)) + After(p);
    }
  }

  lemma PromotedBalance(p: Path, u: Tree)
    requires u.Node? && u.l.Node? && Avl(u) && AvlPath(p, Height(u))
    ensures var q, t := ToLast(p, Promoted(u)), LastTree(u.l);
      Avl(t) && AvlPath(q, Height(t))
  {
    assert Avl(Promoted(u)) && Height(Promoted(u)) == Height(u);
    AvlPlug(p, Promoted(u));
    AvlPlug(ToLast(p, Promoted(u)), LastTree(u.l));
  }

  /** What c, the last node of the left subtree of p, holds. */
  lemma LastHolds(path: Path, u: Tree, head: VarEnt)
    requires Store(path, u, head) && u.Node? && u.l.Node?
    ensures var c := LastTree(u.l).x; c != u.x && c.v_name == LastTree(u.l).e.name && c.vec == LastTree(u.l).e.vec && c.v_left == Root(LastTree(u.l).l)
  {
    Around(u, Holder(path, head));
    LastShape(u.l, u.x);
  }

  lemma {:induction false} LastShape(t: Tree, parent: VarEnt)
    requires t.Node? && Shape(t, parent)
    ensures var c := LastTree(t).x; c in Nodes(t) && c.v_name == LastTree(t).e.name && c.vec == LastTree(t).e.vec && c.v_left == Root(LastTree(t).l)
    decreases t
  {
    Around(t, parent);
    if t.r.Node? {
      LastShape(t.r, t.x);
    }
  }

  /** now is was with matching names only taken away. */
  ghost predicate Fewer(was: map<Name, Words>, now: map<Name, Words>, matches: Name -> bool) {
    && (forall k :: k in now ==> k in was && now[k] == was[k])
    && (forall k :: k in was && !matches(k) ==> k in now)
  }

  ghost predicate NoMatch(es: seq<Entry>, matches: Name -> bool) {
    forall i :: 0 <= i < |es| ==> !matches(es[i].name)
  }

  ghost predicate FirstMatch(es: seq<Entry>, at: nat, matches: Name -> bool) {
    at < |es| && matches(es[at].name) && forall i :: 0 <= i < at ==> !matches(es[i].name)
  }

  /** Of the matching names, name is the one that comes first letter by letter. */
  ghost predicate LeastOf(es: seq<Entry>, name: Name, matches: Name -> bool) {
    forall i {:trigger es[i]} :: 0 <= i < |es| && matches(es[i].name) && es[i].name != name ==> Precedes(name, es[i].name)
  }

  /** The names are listed letter by letter; so one that begins another stands before it. */
  ghost predicate Listed(es: seq<Entry>) {
    && (forall i, j :: 0 <= i < j < |es| ==> Precedes(es[i].name, es[j].name))
    && (forall i, j :: 0 <= i < |es| && 0 <= j < |es| && es[i].name != [] && es[i].name < es[j].name ==> i < j)
  }

  lemma SortedIsListed(es: seq<Entry>)
    requires Sorted(es)
    ensures Listed(es)
  {
    forall i, j | 0 <= i < j < |es| ensures Precedes(es[i].name, es[j].name) {
      LessIsPrecedes(es[i].name, es[j].name);
    }
    forall i, j | 0 <= i < |es| && 0 <= j < |es| && es[i].name != [] && es[i].name < es[j].name ensures i < j {
      PrecedesIsLess(es[i].name, es[j].name);
      CompareEqual(es[i].name, es[j].name);
      CompareEqual(es[i].name, es[i].name);
    }
  }

  /** In sorted entries the first match is the least of the matching names. */
  lemma FirstIsLeast(es: seq<Entry>, at: nat, matches: Name -> bool)
    requires Sorted(es) && FirstMatch(es, at, matches)
    ensures LeastOf(es, es[at].name, matches)
  {
    SortedIsListed(es);
    hide Sorted, Precedes;
    forall i {:trigger es[i]} | 0 <= i < |es| && matches(es[i].name) && es[i].name != es[at].name ensures Precedes(es[at].name, es[i].name) {
      assert i > at;
    }
  }

  lemma LeastOfMap(es: seq<Entry>, at: nat, matches: Name -> bool)
    requires Sorted(es) && FirstMatch(es, at, matches)
    ensures es[at].name in MapOf(es)
    ensures forall k :: k in MapOf(es) && matches(k) ==> k == es[at].name || Precedes(es[at].name, k)
  {
    FirstIsLeast(es, at, matches);
    MapOfKeys(es);
    hide MapOf, Precedes, Sorted;
    forall k | k in MapOf(es) && matches(k) ensures k == es[at].name || Precedes(es[at].name, k) {
      var i :| 0 <= i < |es| && es[i].name == k;
      assert es[i].name == k;
    }
  }

  lemma Emptied(was: map<Name, Words>, es: seq<Entry>, matches: Name -> bool)
    requires Fewer(was, MapOf(es), matches) && NoMatch(es, matches)
    ensures MapOf(es) == map k | k in was && !matches(k) :: was[k]
  {
    MapOfKeys(es);
  }

  lemma MatchLeft(es: seq<Entry>, done: seq<Entry>, l: seq<Entry>, e: Entry, r: seq<Entry>, at: nat, matches: Name -> bool)
    requires es == done + (l + [e] + r) && NoMatch(done, matches) && FirstMatch(l, at, matches)
    ensures FirstMatch(es, |done| + at, matches) && es[|done| + at] == l[at]
  {
    forall i | 0 <= i < |done| + at ensures !matches(es[i].name) {
      assert i >= |done| ==> l[i - |done|] == es[i];
    }
  }

  lemma MatchHere(es: seq<Entry>, done: seq<Entry>, l: seq<Entry>, e: Entry, r: seq<Entry>, matches: Name -> bool)
    requires es == done + (l + [e] + r) && NoMatch(done, matches) && NoMatch(l, matches)
    ensures es == (done + l + [e]) + r
    ensures matches(e.name) ==> FirstMatch(es, |done| + |l|, matches) && es[|done| + |l|] == e
    ensures !matches(e.name) ==> NoMatch(done + l + [e], matches)
  {
    assert forall i :: 0 <= i < |done| + |l| ==> es[i] == if i < |done| then done[i] else l[i - |done|];
  }

  /** What is left when the entry of u goes. */
  ghost function Rest(p: Path, u: Tree): seq<Entry>
    requires u.Node?
  {
    Before(p) + (Entries(u.l) + Entries(u.r)) + After(p)
  }

  lemma Excised(p: Path, u: Tree, tree: Tree)
    requires u.Node? && Plug(p, u) == tree && Avl(tree) && Sorted(Entries(tree))
    ensures Avl(u) && AvlPath(p, Height(u)) && Nodes(tree) == PathNodes(p) + Nodes(u)
    ensures Sorted(Rest(p, u)) && MapOf(Rest(p, u)) == MapOf(Entries(tree)) - {u.e.name}
    ensures |Rest(p, u)| == |Entries(tree)| - 1
    ensures u.l.Leaf? ==> Rest(p, u) == Before(p) + Entries(u.r) + After(p)
    ensures u.r.Leaf? ==> Rest(p, u) == Before(p) + Entries(u.l) + After(p)
  {
    AvlPlug(p, u);
    PlugNodes(p, u);
    PlugEntries(p, u);
    MiddleRemoved(Before(p), Entries(u.l), u.e, Entries(u.r), After(p));
    assert u.l.Leaf? ==> Entries(u.l) + Entries(u.r) == Entries(u.r);
    assert u.r.Leaf? ==> Entries(u.l) + Entries(u.r) == Entries(u.l);
  }

  lemma FromRight(p: Path, t: Tree)
    requires p.In? && p.f
    ensures Before(p) + Entries(t) == Before(p.up) + Entries(Fill(p, t))
    ensures Plug(p, t) == Plug(p.up, Fill(p, t))
  {
    Regroup(Before(p.up), Entries(p.sib), [p.e], Entries(t), []);
  }

  class Table {
    const head: VarEnt
    ghost var tree: Tree

    ghost predicate Valid()
      reads this, head, Nodes(tree)
    {
      Store(Top, tree, head) && Avl(tree) && Sorted(Entries(tree))
    }

    ghost function Contents(): map<Name, Words>
      reads this
    {
      MapOf(Entries(tree))
    }

    constructor ()
      ensures Valid() && fresh(head) && Nodes(tree) == {}
      ensures Contents() == map[]
    {
      head := new VarEnt([], [], null);
      tree := Leaf;
    }

    /** One turn of the search: where it goes on, and that the tree there is lower. */
    lemma WalkOn(p: Path, t: Tree, name: Name)
      requires Valid() && Store(p, t, head) && t.Node? && Between(p, t, name, tree) && name != t.x.v_name
      ensures if Compare(name, t.x.v_name) < 0
        then t.x.v_left == Root(t.l) && Store(Left(p, t), t.l, head) && Between(Left(p, t), t.l, name, tree) && Height(t.l) < Height(t)
        else t.x.v_right == Root(t.r) && Store(Right(p, t), t.r, head) && Between(Right(p, t), t.r, name, tree) && Height(t.r) < Height(t)
    {
      Around(t, Holder(p, head));
      SearchOn(p, t, name, tree);
      CompareEqual(t.e.name, name);
      CompareEqual(name, t.e.name);
      hide Store, Between, Shape, Compare;
      if Compare(name, t.x.v_name) < 0 {
        StepDown(Left(p, t), t.l, head);
      } else {
        StepDown(Right(p, t), t.r, head);
      }
    }

    lemma WalkEnds(p: Path, t: Tree, name: Name)
      requires Valid() && Store(p, t, head) && Between(p, t, name, tree)
      ensures t.Leaf? ==> name !in Contents()
      ensures t.Node? && t.x.v_name == name ==> t.x in Nodes(tree) && name in Contents() && t.x.vec == Contents()[name]
    {
      if t.Leaf? {
        SearchFails(p, name, tree);
      } else {
        Around(t, Holder(p, head));
        Found(p, t, tree);
      }
    }

    lemma WalkStarts(name: Name)
      requires Valid()
      ensures Store(Top, tree, head) && Between(Top, tree, name, tree) && head.v_left == Root(tree)
    {
    }

    lemma WalkSteps(steps: nat)
      requires Valid() && steps <= Height(tree)
      ensures Fib(steps + 2) <= |Contents()| + 1
    {
      StepsBound(tree, steps);
    }

    lemma RootIs(t: Tree)
      ensures Root(t) == if t.Leaf? then null else t.x
    {
    }

    /** The loop of adrof1, with the number of its turns. */
    method Walk(name: Name) returns (v: VarEnt?, ghost steps: nat)
      requires Valid()
      ensures v == null <==> name !in Contents()
      ensures v != null ==> v in Nodes(tree) && v.v_name == name && v.vec == Contents()[name]
      ensures Fib(steps + 2) <= |Contents()| + 1
    {
      hide *;
      WalkStarts(name);
      v := head.v_left;
      steps := 0;
      ghost var p, t := Top, tree;
      while v != null && (First(name) != First(v.v_name) || Strcmp(name, v.v_name) != 0)
        invariant Valid() && Store(p, t, head) && v == Root(t) && Between(p, t, name, tree)
        invariant steps + Height(t) <= Height(tree)
        decreases t
      {
        RootIs(t);
        SameName(name, v.v_name);
        WalkOn(p, t, name);
        if Compare(name, v.v_name) < 0 {
          v := v.v_left;
          p, t := Left(p, t), t.l;
        } else {
          v := v.v_right;
          p, t := Right(p, t), t.r;
        }
        steps := steps + 1;
      }
      RootIs(t);
      if v != null {
        SameName(name, v.v_name);
      }
      WalkEnds(p, t, name);
      WalkSteps(steps);
    }

    /** Search for name as adrof1 and setq both do; by the bound on the steps, it is logarithmic. */
    method Adrof1(name: Name) returns (v: VarEnt?, ghost steps: nat)
      requires Valid()
      ensures v == null <==> name !in Contents()
      ensures v != null ==> v in Nodes(tree) && v.v_name == name && v.vec == Contents()[name]
      ensures Fib(steps + 2) <= |Contents()| + 1
      ensures Valid()
    {
      hide *;
      NodesExist(tree);
      v, steps := Walk(name);
    }

    method SetVec(c: VarEnt, vec: Words, ghost path: Path, ghost t: Tree)
      requires Store(path, t, head) && t.Node? && t.x == c
      modifies c`vec
      ensures Store(path, WithVec(t, vec), head)
    {
      ghost var was := map y | y in Nodes(t) :: Read(y);
      c.vec := vec;
      forall y | y in Nodes(t) ensures Read(y) == CellOf(WithVec(t, vec), Holder(path, head), y) {
        assert was[y] == CellOf(t, Holder(path, head), y);
      }
    }

    /** The label found of setq: an existing entry gets another value. */
    method Replace(c: VarEnt, vec: Words, ghost path: Path, ghost t: Tree)
      requires Valid() && Store(path, t, head) && Plug(path, t) == tree && t.Node? && t.x == c
      modifies this, c`vec
      ensures Valid() && Nodes(tree) == old(Nodes(tree))
      ensures Contents() == old(Contents())[t.e.name := vec]
    {
      RevaluedEntries(path, t, vec);
      RevaluedBalance(path, t, vec);
      SetVec(c, vec, path, t);
      tree := Plug(path, WithVec(t, vec));
      Ascend(path, WithVec(t, vec), head);
    }

    method Attach(p: VarEnt, f: bool, name: Name, vec: Words, ghost path: Path) returns (c: VarEnt)
      requires Store(path, Leaf, head) && p == Holder(path, head) && f == (path.In? && path.f)
      modifies p`v_left, p`v_right
      ensures fresh(c) && Store(path, Node(Leaf, c, Entry(name, vec), 0, Leaf), head)
    {
      PathNodesExist(path);
      c := new VarEnt(name, vec, p);
      Relink(p, f, c, path, null, head);
    }

    /** The end of setq: a new leaf in the hole below p. */
    method Insert(p: VarEnt, f: bool, name: Name, vec: Words, ghost path: Path) returns (c: VarEnt)
      requires Valid() && Store(path, Leaf, head) && Between(path, Leaf, name, tree)
      requires p == Holder(path, head) && f == (path.In? && path.f)
      modifies this, head, Nodes(tree)
      ensures Valid() && fresh(c) && Nodes(tree) == old(Nodes(tree)) + {c}
      ensures Contents() == old(Contents())[name := vec]
    {
      FilledEntries(path, name, vec, tree);
      FilledBalance(path, tree);
      c := Attach(p, f, name, vec, path);
      ghost var t := Node(Leaf, c, Entry(name, vec), 0, Leaf);
      LeafValue(t);
      tree := Balance(p, f, false, head, path, t, 0);
    }

    method Setq(name: Name, vec: Words)
      requires Valid()
      modifies this, head, Nodes(tree)
      ensures Valid() && fresh(Nodes(tree) - old(Nodes(tree)))
      ensures Contents() == old(Contents())[name := vec]
    {
      var p, f := head, false;
      ghost var path, t := Top, tree;
      var c := p.Link(f);
      while c != null
        invariant Store(path, t, head) && c == Root(t) && Between(path, t, name, tree)
        invariant p == Holder(path, head) && f == (path.In? && path.f)
        invariant Valid() && tree == old(tree)
        decreases t
      {
        Around(t, p);
        SearchOn(path, t, name, tree);
        CompareEqual(name, c.v_name);
        CompareEqual(c.v_name, name);
        var cmp := First(name) - First(c.v_name);
        if cmp == 0 {
          cmp := Strcmp(name, c.v_name);
          if cmp == 0 {
            PlugNodes(path, t);
            Replace(c, vec, path, t);
            return;
          }
        }
        p := c;
        f := cmp > 0;
        c := p.Link(f);
        path, t := if f then Right(path, t) else Left(path, t), if f then t.r else t.l;
        StepDown(path, t, head);
      }
      c := Insert(p, f, name, vec, path);
    }

    /** c, the only child there may be, takes the place of the node p. */
    method Graft(p: VarEnt, c: VarEnt?, ghost path: Path, ghost u: Tree, ghost w: Tree) returns (pp: VarEnt, f: bool)
      requires Store(path, u, head) && u.Node? && p == u.x && c == Root(w)
      requires (u.l.Leaf? && w == u.r) || (u.r.Leaf? && w == u.l)
      modifies head, PathNodes(path), Nodes(u)
      ensures Store(path, w, head) && pp == Holder(path, head) && f == (path.In? && path.f)
    {
      Around(u, Holder(path, head));
      AroundHole(path, u, head);
      PathNodesExist(path);
      NodesExist(w);
      ghost var was := map y | y in Nodes(w) :: Read(y);
      assert Shape(w, p);
      pp := p.v_parent;
      f := pp.v_right == p;
      Relink(pp, f, c, path, u.x, head);
      if c != null {
        c.v_parent := pp;
      }
      forall y | y in Nodes(w) ensures Read(y) == CellOf(w, pp, y) {
        assert was[y] == CellOf(w, p, y);
        assert y != c ==> Read(y) == was[y];
      }
    }

    /** The end of unsetv1: the node p, with at most one child, leaves the tree. */
    method Splice(p: VarEnt, c: VarEnt?, ghost path: Path, ghost u: Tree, ghost w: Tree)
      requires Store(path, u, head) && u.Node? && p == u.x && c == Root(w)
      requires (u.l.Leaf? && w == u.r) || (u.r.Leaf? && w == u.l)
      requires Avl(u) && AvlPath(path, Height(u))
      modifies this, head, PathNodes(path), Nodes(u)
      ensures Store(Top, tree, head) && Avl(tree)
      ensures Entries(tree) == Before(path) + Entries(w) + After(path)
      ensures Nodes(tree) == PathNodes(path) + Nodes(w)
    {
      var pp, f := Graft(p, c, path, u, w);
      tree := Balance(pp, f, true, head, path, w, Height(u));
    }

    /** The middle of unsetv1: p takes over the entry of the last node of its left subtree, and
        the store is looked at from there. */
    method Promote(p: VarEnt, c: VarEnt, ghost path: Path, ghost u: Tree)
      requires Store(path, u, head) && u.Node? && p == u.x && u.l.Node? && c == LastTree(u.l).x
      modifies p`v_name, p`vec
      ensures Store(ToLast(path, Promoted(u)), LastTree(u.l), head)
    {
      ghost var u' := Promoted(u);
      ghost var was := map y | y in Nodes(u) :: Read(y);
      LastHolds(path, u, head);
      p.v_name := c.v_name;
      p.vec := c.vec;
      forall y | y in Nodes(u') ensures Read(y) == CellOf(u', Holder(path, head), y) {
        assert was[y] == CellOf(u, Holder(path, head), y);
      }
      Ascend(path, u', head);
      Descend(ToLast(path, u'), LastTree(u.l), head);
    }

    /** The loop of unsetv1: the last node of the subtree at c0. */
    method Last(c0: VarEnt, ghost t0: Tree, ghost parent: VarEnt) returns (c: VarEnt)
      requires Shape(t0, parent) && t0.Node? && c0 == t0.x
      ensures c == LastTree(t0).x
    {
      c := c0;
      ghost var t, q := t0, parent;
      Around(t, q);
      while c.v_right != null
        invariant Shape(t, q) && t.Node? && c == t.x && c.v_right == Root(t.r)
        invariant LastTree(t) == LastTree(t0)
        decreases t
      {
        Around(t, q);
        c := c.v_right;
        t, q := t.r, t.x;
        Around(t, q);
      }
    }

    /** The third case of unsetv1, both children present: the node to take out becomes the last
        node of the left subtree, once p has taken over what that holds. */
    method Exchange(p0: VarEnt, ghost path0: Path, ghost u0: Tree) returns (p: VarEnt, c: VarEnt?, ghost path: Path, ghost u: Tree)
      requires Store(path0, u0, head) && u0.Node? && p0 == u0.x && u0.l.Node?
      requires Avl(u0) && AvlPath(path0, Height(u0))
      modifies p0`v_name, p0`vec
      ensures Store(path, u, head) && u.Node? && p == u.x && u.r.Leaf? && c == Root(u.l)
      ensures Avl(u) && AvlPath(path, Height(u))
      ensures PathNodes(path) + Nodes(u) == PathNodes(path0) + Nodes(u0)
      ensures Before(path) + Entries(u.l) + After(path) == Rest(path0, u0)
    {
      Around(u0, Holder(path0, head));
      PromotedEntries(path0, u0);
      PromotedBalance(path0, u0);
      LastHolds(path0, u0, head);
      NodesExist(u0);
      PathNodesExist(path0);
      p := Last(p0.v_left, u0.l, p0);
      Promote(p0, p, path0, u0);
      path, u := ToLast(path0, Promoted(u0)), LastTree(u0.l);
      c := p.v_left;
    }

    /** Delete the node p, rebalance, and lose its entry and no other. */
    method Unsetv1(p0: VarEnt)
      requires Valid() && p0 in Nodes(tree)
      modifies this, head, Nodes(tree)
      ensures Valid() && Nodes(tree) <= old(Nodes(tree))
      ensures Contents() == old(Contents()) - {old(p0.v_name)}
      ensures |Entries(tree)| == old(|Entries(tree)|) - 1
    {
      var p, c := p0, null;
      ghost var path, u := Locate(Top, tree, p0).0, Locate(Top, tree, p0).1;
      ghost var w := u.l;
      Descend(path, u, head);
      Around(u, Holder(path, head));
      Excised(path, u, tree);
      if p.v_right == null {
        c := p.v_left;
      } else if p.v_left == null {
        c, w := p.v_right, u.r;
      } else {
        p, c, path, u := Exchange(p, path, u);
        w := u.l;
      }
      Splice(p, c, path, u, w);
    }

    /** The body of the loop of madrof: the left subtree of vp, then vp itself. */
    method MadrofHere(matches: Name -> bool, vp: VarEnt, ghost t: Tree, ghost parent: VarEnt, ghost es: seq<Entry>, ghost done: seq<Entry>)
      returns (r: VarEnt?, ghost at: nat)
      requires Shape(t, parent) && t.Node? && vp == t.x
      requires es == done + Entries(t) && NoMatch(done, matches)
      ensures r == null ==> NoMatch(done + Entries(t.l) + [t.e], matches) && es == (done + Entries(t.l) + [t.e]) + Entries(t.r)
      ensures r != null ==> r in Nodes(t) && FirstMatch(es, at, matches) && es[at].name == r.v_name
      decreases t, 0
    {
      ghost var l, right := Entries(t.l), Entries(t.r);
      Around(t, parent);
      if vp.v_left != null {
        r, at := Madrof(matches, vp.v_left, t.l, vp);
        if r != null {
          MatchLeft(es, done, l, t.e, right, at, matches);
          at := |done| + at;
          return;
        }
      }
      MatchHere(es, done, l, t.e, right, matches);
      if matches(vp.v_name) {
        return vp, |done| + |l|;
      }
      return null, 0;
    }

    /** madrof: the node with the least name that the pattern matches, found by recursion to the
        left and a loop to the right. */
    method Madrof(matches: Name -> bool, vp0: VarEnt?, ghost t0: Tree, ghost parent0: VarEnt) returns (r: VarEnt?, ghost at: nat)
      requires Shape(t0, parent0) && vp0 == Root(t0)
      ensures r == null ==> NoMatch(Entries(t0), matches)
      ensures r != null && Sorted(Entries(t0)) ==> LeastOf(Entries(t0), r.v_name, matches)
      ensures r != null ==> r in Nodes(t0) && FirstMatch(Entries(t0), at, matches) && Entries(t0)[at].name == r.v_name
      decreases t0, 1
    {
      var vp := vp0;
      NodesExist(t0);
      ghost var t, parent, done := t0, parent0, [];
      while vp != null
        invariant Shape(t, parent) && vp == Root(t) && Nodes(t) <= Nodes(t0)
        invariant Entries(t0) == done + Entries(t)
        invariant NoMatch(done, matches)
        decreases t
      {
        Around(t, parent);
        NodesExist(t);
        r, at := MadrofHere(matches, vp, t, parent, Entries(t0), done);
        if r != null {
          if Sorted(Entries(t0)) {
            FirstIsLeast(Entries(t0), at, matches);
          }
          return;
        }
        done := done + Entries(t.l) + [t.e];
        t, parent := t.r, t.x;
        vp := vp.v_right;
      }
      assert Entries(t0) == done;
      return null, 0;
    }

    /** unset1 with one pattern: delete the least match as long as there is one. */
    method Unset1(matches: Name -> bool) returns (cnt: nat)
      requires Valid()
      modifies this, head, Nodes(tree)
      ensures Valid()
      ensures Contents() == map k | k in old(Contents()) && !matches(k) :: old(Contents())[k]
      ensures cnt == old(|Entries(tree)|) - |Entries(tree)|
    {
      cnt := 0;
      ghost var was := Contents();
      var vp := LeastMatch(matches);
      while vp != null
        invariant Valid() && Nodes(tree) <= old(Nodes(tree))
        invariant vp == null ==> NoMatch(Entries(tree), matches)
        invariant vp != null ==> vp in Nodes(tree) && matches(vp.v_name)
        invariant Fewer(was, Contents(), matches)
        invariant cnt + |Entries(tree)| == old(|Entries(tree)|)
        decreases |Entries(tree)|
      {
        Unsetv1(vp);
        cnt := cnt + 1;
        vp := LeastMatch(matches);
      }
      Emptied(was, Entries(tree), matches);
    }

    method LeastMatch(matches: Name -> bool) returns (vp: VarEnt?)
      requires Valid()
      ensures vp == null ==> NoMatch(Entries(tree), matches)
      ensures vp != null ==> vp in Nodes(tree) && matches(vp.v_name) && vp.v_name in Contents()
      ensures vp != null ==> forall k :: k in Contents() && matches(k) ==> k == vp.v_name || Precedes(vp.v_name, k)
      ensures Valid()
    {
      AroundHole(Top, tree, head);
      NodesExist(tree);
      ghost var at;
      vp, at := Madrof(matches, head.v_left, tree, head);
      if vp != null {
        LeastOfMap(Entries(tree), at, matches);
      }
    }

    /** The inner loop of plist: as far to the left as the links lead. */
    method Leftmost(p0: VarEnt, ghost path0: Path, ghost t0: Tree) returns (p: VarEnt, ghost path: Path, ghost t: Tree)
      requires Store(path0, t0, head) && t0.Node? && p0 == t0.x
      ensures Store(path, t, head) && t.Node? && p == t.x && t.l.Leaf? && Plug(path, t) == Plug(path0, t0)
      ensures Before(path) == Before(path0)
    {
      p, path, t := p0, path0, t0;
      Around(t, Holder(path, head));
      while p.v_left != null
        invariant Store(path, t, head) && t.Node? && p == t.x && p.v_left == Root(t.l)
        invariant Plug(path, t) == Plug(path0, t0) && Before(path) == Before(path0)
        decreases t
      {
        p := p.v_left;
        path, t := Left(path, t), t.l;
        StepDown(path, t, head);
        Around(t, Holder(path, head));
      }
    }

    /** The do loop of plist: up, until the step is one from a left child. */
    method ClimbFromRight(p0: VarEnt, ghost path0: Path, ghost t0: Tree) returns (p: VarEnt, ghost path: Path, ghost t: Tree)
      requires Store(path0, t0, head) && t0.Node? && p0 == t0.x
      ensures Store(path, t, head) && t.Node? && (path.In? ==> !path.f) && p == Holder(path, head)
      ensures Plug(path, t) == Plug(path0, t0)
      ensures Before(path) + Entries(t) == Before(path0) + Entries(t0)
    {
      path, t := path0, t0;
      AroundHole(path, t, head);
      Around(t, Holder(path, head));
      var c := p0;
      p := p0.v_parent;
      while p.v_right == c
        invariant Store(path, t, head) && t.Node? && c == t.x && p == Holder(path, head)
        invariant p.v_right == c <==> path.In? && path.f
        invariant Plug(path, t) == Plug(path0, t0)
        invariant Before(path) + Entries(t) == Before(path0) + Entries(t0)
        decreases path
      {
        FromRight(path, t);
        StepUp(path, t, head);
        path, t := path.up, Fill(path, t);
        Around(t, Holder(path, head));
        AroundHole(path, t, head);
        c := p;
        p := p.v_parent;
      }
    }

    /** From one entry to the next. */
    method Next(p0: VarEnt, ghost path0: Path, ghost t0: Tree) returns (p: VarEnt, ghost path: Path, ghost t: Tree)
      requires Store(path0, t0, head) && t0.Node? && p0 == t0.x
      ensures Plug(path, t) == Plug(path0, t0) && t.Node? && Store(path, t, head)
      ensures p == t.x || (p == head && path.Top? && Entries(t) == Before(path0) + Entries(t0.l) + [t0.e])
      ensures p == t.x ==> Before(path) + Entries(t.l) == Before(path0) + Entries(t0.l) + [t0.e]
    {
      Around(t0, Holder(path0, head));
      if p0.v_right != null {
        p, path, t := p0.v_right, Right(path0, t0), t0.r;
        StepDown(path, t, head);
        p, path, t := Leftmost(p, path, t);
      } else {
        assert Before(path0) + Entries(t0) == Before(path0) + Entries(t0.l) + [t0.e];
        p, path, t := ClimbFromRight(p0, path0, t0);
        if path.In? {
          StepUp(path, t, head);
          path, t := path.up, Fill(path, t);
        }
      }
    }

    /** plist(&head): the entries as they are printed. Every entry comes out once, in order, and
        the walk uses nothing but the links of the nodes. */
    method Plist() returns (out: seq<Entry>)
      requires Valid()
      ensures out == Entries(tree) && Listed(out) && MapOf(out) == Contents()
      ensures Valid()
    {
      SortedIsListed(Entries(tree));
      hide Listed;
      out := [];
      AroundHole(Top, tree, head);
      NodesExist(tree);
      var p := head.v_left;
      if p == null {
        return;
      }
      ghost var path, t;
      p, path, t := Leftmost(p, Top, tree);
      AroundHole(path, t, head);
      Around(t, Holder(path, head));
      while p.v_parent != null
        invariant Store(path, t, head) && t.Node? && Plug(path, t) == tree
        invariant p == t.x || (p == head && out == Entries(tree))
        invariant p == t.x ==> out == Before(path) + Entries(t.l)
        invariant p.v_parent == null <==> p == head
        decreases |Entries(tree)| - |out|
      {
        AroundHole(path, t, head);
        Around(t, Holder(path, head));
        PlugEntries(path, t);
        out := out + [Entry(p.v_name, p.vec)];
        p, path, t := Next(p, path, t);
        AroundHole(path, t, head);
        Around(t, Holder(path, head));
      }
    }
  }

  /** Every entry of a sorted list is one of the map. */
  lemma {:induction false} MapOfSize(es: seq<Entry>)
    requires Sorted(es)
    ensures |MapOf(es)| == |es|
  {
    if es != [] {
      var n := |es| - 1;
      MapOfSize(es[..n]);
      MapOfKeys(es[..n]);
      forall i | 0 <= i < n ensures es[..n][i].name != es[n].name {
        LessIsTotalOrder();
        assert Less(es[i].name, es[n].name);
      }
    }
  }

  /** As many steps as the tree is high are few for the names there are. */
  lemma StepsBound(tree: Tree, n: nat)
    requires Avl(tree) && Sorted(Entries(tree)) && n <= Height(tree)
    ensures Fib(n + 2) <= |MapOf(Entries(tree))| + 1
  {
    ManyEntries(tree);
    MapOfSize(Entries(tree));
    FibGrowsTo(n + 2, Height(tree) + 2);
  }

  lemma {:induction false} FibGrowsTo(n: nat, m: nat)
    requires 1 <= n <= m
    ensures Fib(n) <= Fib(m)
    decreases m - n
  {
    if n < m {
      FibGrows(n);
      FibGrowsTo(n + 1, m);
    }
  }

  function Fib(n: nat): nat {
    if n < 2 then n else Fib(n - 1) + Fib(n - 2)
  }

  lemma FibGrows(n: nat)
    requires n >= 1
    ensures Fib(n) <= Fib(n + 1)
  {
  }

  lemma FibSum(a: nat, b: nat)
    requires a <= b <= a + 1 || b <= a <= b + 1
    ensures Fib(a + 2) + Fib(b + 2) >= Fib(1 + Max(a, b) + 2)
  {
    FibGrows(Max(a, b) + 1);
  }

  /** A balanced tree of height h holds at least Fib(h + 2) - 1 names, so a search, which takes at
      most h steps, is logarithmic. */
  lemma {:induction false} ManyEntries(t: Tree)
    requires Avl(t)
    ensures |Entries(t)| + 1 >= Fib(Height(t) + 2)
  {
    if t.Node? {
      ManyEntries(t.l);
      ManyEntries(t.r);
      var a, b := Height(t.l), Height(t.r);
      FibSum(a, b);
      assert Height(t) == 1 + Max(a, b);
      assert |Entries(t)| == |Entries(t.l)| + 1 + |Entries(t.r)|;
      assert Fib(a + 2) + Fib(b + 2) >= Fib(Height(t) + 2);
    }
  }
}
