/** The shapes that the variable tree of the shell takes, as values: a tree of nodes, a path
    from the header down to a hole, the names held in order, and the balance rule. */
module VarTree {
  import opened Names

  type Words = seq<Name>

  datatype Entry = Entry(name: Name, vec: Words)

  /** struct varent; the third link of v_link is v_parent. */
  class VarEnt {
    var v_name: Name
    var vec: Words
    var v_left: VarEnt?
    var v_right: VarEnt?
    var v_parent: VarEnt?
    var v_bal: int

    constructor (name: Name, value: Words, parent: VarEnt?)
      ensures v_name == name && vec == value && v_parent == parent
      ensures v_left == null && v_right == null && v_bal == 0
    {
      v_name, vec, v_parent := name, value, parent;
      v_left, v_right, v_bal := null, null, 0;
    }

    function Link(f: bool): VarEnt?
      reads this
    {
      if f then v_right else v_left
    }

    method SetLink(f: bool, c: VarEnt?)
      modifies this`v_left, this`v_right
      ensures v_left == if f then old(v_left) else c
      ensures v_right == if f then c else old(v_right)
    {
      if f {
        v_right := c;
      } else {
        v_left := c;
      }
    }
  }

  /** A subtree: which node stands where, and what each node holds. */
  datatype Tree = Leaf | Node(l: Tree, x: VarEnt, e: Entry, bal: int, r: Tree)

  /** A way down to a hole: each step names a node, the side of the hole (true is right), and
      the subtree on the other side. */
  datatype Path = Top | In(up: Path, f: bool, x: VarEnt, e: Entry, bal: int, sib: Tree)

  ghost function Nodes(t: Tree): set<VarEnt> {
    match t
    case Leaf => {}
    case Node(l, x, _, _, r) => Nodes(l) + {x} + Nodes(r)
  }

  ghost function PathNodes(p: Path): set<VarEnt> {
    match p
    case Top => {}
    case In(up, _, x, _, _, sib) => PathNodes(up) + {x} + Nodes(sib)
  }

  ghost function Root(t: Tree): VarEnt? {
    if t.Leaf? then null else t.x
  }

  ghost function Holder(p: Path, head: VarEnt): VarEnt {
    if p.Top? then head else p.x
  }

  /** The node of the innermost step, with t put in the hole. */
  ghost function Fill(p: Path, t: Tree): Tree
    requires p.In?
  {
    if p.f then Node(p.sib, p.x, p.e, p.bal, t) else Node(t, p.x, p.e, p.bal, p.sib)
  }

  ghost function Plug(p: Path, t: Tree): Tree {
    if p.Top? then t else Plug(p.up, Fill(p, t))
  }

  // Contents

  ghost function Entries(t: Tree): seq<Entry> {
    match t
    case Leaf => []
    case Node(l, _, e, _, r) => Entries(l) + [e] + Entries(r)
  }

  ghost function Before(p: Path): seq<Entry> {
    if p.Top? then [] else if p.f then Before(p.up) + Entries(p.sib) + [p.e] else Before(p.up)
  }

  ghost function After(p: Path): seq<Entry> {
    if p.Top? then [] else if p.f then After(p.up) else [p.e] + Entries(p.sib) + After(p.up)
  }

  ghost predicate Sorted(es: seq<Entry>) {
    forall i, j :: 0 <= i < j < |es| ==> Less(es[i].name, es[j].name)
  }

  ghost function MapOf(es: seq<Entry>): map<Name, Words> {
    if es == [] then map[] else MapOf(es[..|es| - 1])[es[|es| - 1].name := es[|es| - 1].vec]
  }

  lemma Regroup<T>(a: seq<T>, b: seq<T>, c: seq<T>, d: seq<T>, e: seq<T>)
    ensures a + (b + c + d) + e == (a + b + c) + d + e
    ensures a + (b + c + d) + e == a + b + (c + d + e)
  {
  }

  lemma {:induction false} PlugEntries(p: Path, t: Tree)
    ensures Entries(Plug(p, t)) == Before(p) + Entries(t) + After(p)
  {
    if p.In? {
      PlugEntries(p.up, Fill(p, t));
      if p.f {
        Regroup(Before(p.up), Entries(p.sib), [p.e], Entries(t), After(p.up));
      } else {
        Regroup(Before(p.up), Entries(t), [p.e], Entries(p.sib), After(p.up));
      }
    }
  }

  lemma {:induction false} MapOfKeys(es: seq<Entry>)
    ensures forall k :: k in MapOf(es) <==> exists i :: 0 <= i < |es| && es[i].name == k
    ensures Sorted(es) ==> forall i :: 0 <= i < |es| ==> es[i].name in MapOf(es) && MapOf(es)[es[i].name] == es[i].vec
  {
    if es != [] {
      var n := |es| - 1;
      MapOfKeys(es[..n]);
      LessIsTotalOrder();
      forall k ensures k in MapOf(es) <==> exists i :: 0 <= i < |es| && es[i].name == k {
        if k in MapOf(es[..n]) {
          var i :| 0 <= i < n && es[..n][i].name == k;
          assert es[i].name == k;
        }
        if i :| 0 <= i < |es| && es[i].name == k {
          assert i < n ==> es[..n][i].name == k;
        }
      }
      if Sorted(es) {
        forall i | 0 <= i < |es| ensures es[i].name in MapOf(es) && MapOf(es)[es[i].name] == es[i].vec {
          if i < n {
            assert es[..n][i] == es[i];
            assert Less(es[i].name, es[n].name);
          }
        }
      }
    }
  }

  /** A sorted sequence is known by its map. */
  lemma MapOfLookup(es: seq<Entry>, m: map<Name, Words>)
    requires Sorted(es)
    requires forall i :: 0 <= i < |es| ==> es[i].name in m && m[es[i].name] == es[i].vec
    requires forall k :: k in m ==> exists i :: 0 <= i < |es| && es[i].name == k
    ensures MapOf(es) == m
  {
    MapOfKeys(es);
  }

  lemma SortedSplit(a: seq<Entry>, e: Entry, b: seq<Entry>)
    requires Sorted(a + [e] + b)
    ensures forall i :: 0 <= i < |a| ==> Less(a[i].name, e.name)
    ensures forall i :: 0 <= i < |b| ==> Less(e.name, b[i].name)
  {
    var es := a + [e] + b;
    assert es[|a|] == e;
    assert forall i :: 0 <= i < |a| ==> es[i] == a[i];
    assert forall i :: 0 <= i < |b| ==> es[|a| + 1 + i] == b[i];
  }

  lemma InsertedSorted(a: seq<Entry>, e: Entry, b: seq<Entry>)
    requires Sorted(a + b)
    requires forall i :: 0 <= i < |a| ==> Less(a[i].name, e.name)
    requires forall i :: 0 <= i < |b| ==> Less(e.name, b[i].name)
    ensures Sorted(a + [e] + b)
  {
    var es, was := a + [e] + b, a + b;
    forall i, j | 0 <= i < j < |es| ensures Less(es[i].name, es[j].name) {
      if i != |a| && j != |a| {
        assert es[i] == was[if i < |a| then i else i - 1];
        assert es[j] == was[if j < |a| then j else j - 1];
      }
    }
  }

  lemma RemovedSorted(a: seq<Entry>, e: Entry, b: seq<Entry>)
    requires Sorted(a + [e] + b)
    ensures Sorted(a + b)
  {
    var was, es := a + [e] + b, a + b;
    forall i, j | 0 <= i < j < |es| ensures Less(es[i].name, es[j].name) {
      assert es[i] == was[if i < |a| then i else i + 1];
      assert es[j] == was[if j < |a| then j else j + 1];
    }
  }

  /** Putting an entry where it belongs: in front of everything greater, behind everything less. */
  lemma Inserted(a: seq<Entry>, e: Entry, b: seq<Entry>)
    requires Sorted(a + b)
    requires forall i :: 0 <= i < |a| ==> Less(a[i].name, e.name)
    requires forall i :: 0 <= i < |b| ==> Less(e.name, b[i].name)
    ensures Sorted(a + [e] + b)
    ensures e.name !in MapOf(a + b)
    ensures MapOf(a + [e] + b) == MapOf(a + b)[e.name := e.vec]
  {
    InsertedSorted(a, e, b);
    Removed(a, e, b);
    var es := a + [e] + b;
    MapOfKeys(es);
    assert es[|a|] == e;
  }

  lemma Replaced(a: seq<Entry>, e: Entry, b: seq<Entry>, vec: Words)
    requires Sorted(a + [e] + b)
    ensures Sorted(a + [e.(vec := vec)] + b)
    ensures e.name in MapOf(a + [e] + b)
    ensures MapOf(a + [e.(vec := vec)] + b) == MapOf(a + [e] + b)[e.name := vec]
  {
    var was, es := a + [e] + b, a + [e.(vec := vec)] + b;
    SortedSplit(a, e, b);
    LessIsTotalOrder();
    MapOfKeys(was);
    assert was[|a|].name == e.name;
    assert forall i :: 0 <= i < |es| ==> es[i] == if i == |a| then e.(vec := vec) else was[i];
    assert forall i :: 0 <= i < |es| ==> es[i].name == was[i].name;
    MapOfLookup(es, MapOf(was)[e.name := vec]);
  }

  lemma Removed(a: seq<Entry>, e: Entry, b: seq<Entry>)
    requires Sorted(a + [e] + b)
    ensures Sorted(a + b)
    ensures e.name in MapOf(a + [e] + b)
    ensures MapOf(a + b) == MapOf(a + [e] + b) - {e.name}
  {
    var was, es := a + [e] + b, a + b;
    SortedSplit(a, e, b);
    RemovedSorted(a, e, b);
    MapOfKeys(was);
    assert was[|a|].name == e.name;
    var m := MapOf(was) - {e.name};
    forall i | 0 <= i < |es| ensures es[i].name in m && m[es[i].name] == es[i].vec {
      assert es[i] == was[if i < |a| then i else i + 1];
      CompareEqual(es[i].name, e.name);
      CompareEqual(e.name, es[i].name);
    }
    forall k | k in m ensures exists i :: 0 <= i < |es| && es[i].name == k {
      var i :| 0 <= i < |was| && was[i].name == k;
      assert es[if i < |a| then i else i - 1].name == k;
    }
    MapOfLookup(es, m);
  }

  // Balance

  ghost function Max(a: nat, b: nat): nat {
    if a < b then b else a
  }

  ghost function Height(t: Tree): nat {
    if t.Leaf? then 0 else 1 + Max(Height(t.l), Height(t.r))
  }

  ghost predicate Avl(t: Tree) {
    t.Node? ==>
      -1 <= t.bal <= 1 && t.bal == Height(t.r) - Height(t.l) && Avl(t.l) && Avl(t.r)
  }

  /** Every step of the path is balanced if the hole has height h. */
  ghost predicate AvlPath(p: Path, h: nat) {
    p.In? ==>
      && -1 <= p.bal <= 1
      && p.bal == (if p.f then h - Height(p.sib) else Height(p.sib) - h)
      && Avl(p.sib)
      && AvlPath(p.up, 1 + Max(h, Height(p.sib)))
  }

  lemma AvlFill(p: Path, t: Tree)
    requires p.In?
    ensures Height(Fill(p, t)) == 1 + Max(Height(t), Height(p.sib))
    ensures Avl(Fill(p, t)) <==>
      && Avl(t) && Avl(p.sib) && -1 <= p.bal <= 1
      && p.bal == if p.f then Height(t) - Height(p.sib) else Height(p.sib) - Height(t)
  {
  }

  lemma {:induction false} AvlPlug(p: Path, t: Tree)
    ensures Avl(Plug(p, t)) <==> Avl(t) && AvlPath(p, Height(t))
  {
    if p.In? {
      AvlFill(p, t);
      AvlPlug(p.up, Fill(p, t));
    }
  }

  ghost predicate CanTurnLeft(t: Tree) {
    t.Node? && t.r.Node?
  }

  ghost predicate CanTurnRight(t: Tree) {
    t.Node? && t.l.Node?
  }

  ghost function TurnedLeft(t: Tree): Tree
    requires CanTurnLeft(t)
  {
    t.r.(l := t.(r := t.r.l))
  }

  ghost function TurnedRight(t: Tree): Tree
    requires CanTurnRight(t)
  {
    t.l.(r := t.(l := t.l.r))
  }

  lemma TurnedEntries(t: Tree)
    ensures CanTurnLeft(t) ==> Entries(TurnedLeft(t)) == Entries(t) && Nodes(TurnedLeft(t)) == Nodes(t)
    ensures CanTurnRight(t) ==> Entries(TurnedRight(t)) == Entries(t) && Nodes(TurnedRight(t)) == Nodes(t)
  {
    if CanTurnLeft(t) {
      var a, b, c := Entries(t.l), Entries(t.r.l), Entries(t.r.r);
      assert (a + [t.e] + b) + [t.r.e] + c == a + [t.e] + (b + [t.r.e] + c);
    }
    if CanTurnRight(t) {
      var a, b, c := Entries(t.l.l), Entries(t.l.r), Entries(t.r);
      assert (a + [t.l.e] + b) + [t.e] + c == a + [t.l.e] + (b + [t.e] + c);
    }
  }

  /** One fewer or one more than the height h, according to what was done below. */
  ghost predicate Grew(d: bool, h: nat, h': nat) {
    if d then h' + 1 == h else h' == h + 1
  }

  /** t is balanced but for its f child, whose height was h when t.bal was right and which
      has since grown (an insert) or shrunk (a delete) by one. */
  ghost predicate Disturbed(t: Tree, f: bool, d: bool, h: nat) {
    && t.Node? && -1 <= t.bal <= 1 && Avl(t.l) && Avl(t.r)
    && Grew(d, h, if f then Height(t.r) else Height(t.l))
    && t.bal == if f then h - Height(t.l) else Height(t.r) - h
  }

  ghost function HeightBefore(t: Tree, f: bool, h: nat): nat
    requires t.Node?
  {
    1 + if f then Max(Height(t.l), h) else Max(h, Height(t.r))
  }

  /** The switch statements of balance, on the tree as a value. */
  ghost function Rebalanced(t: Tree, f: bool, d: bool): Tree
    requires t.Node?
    requires (f != d) && t.bal > 0 ==> t.r.Node? && (t.r.bal < 0 ==> t.r.l.Node?)
    requires (f == d) && t.bal < 0 ==> t.l.Node? && (t.l.bal > 0 ==> t.l.r.Node?)
  {
    if f != d then
      if t.bal < 0 then t.(bal := 0)
      else if t.bal == 0 then t.(bal := 1)
      else if t.r.bal > 0 then
        var q := TurnedLeft(t); q.(l := q.l.(bal := 0), bal := 0)
      else if t.r.bal == 0 then
        var q := TurnedLeft(t); q.(l := q.l.(bal := 1), bal := -1)
      else
        var q := TurnedLeft(t.(r := TurnedRight(t.r)));
        q.(l := q.l.(bal := if q.bal < 1 then 0 else -1), r := q.r.(bal := if q.bal > -1 then 0 else 1), bal := 0)
    else
      if t.bal > 0 then t.(bal := 0)
      else if t.bal == 0 then t.(bal := -1)
      else if t.l.bal < 0 then
        var q := TurnedRight(t); q.(r := q.r.(bal := 0), bal := 0)
      else if t.l.bal == 0 then
        var q := TurnedRight(t); q.(r := q.r.(bal := -1), bal := 1)
      else
        var q := TurnedRight(t.(l := TurnedLeft(t.l)));
        q.(l := q.l.(bal := if q.bal < 1 then 0 else -1), r := q.r.(bal := if q.bal > -1 then 0 else 1), bal := 0)
  }

  /** t is too heavy on the right: the two single rotations and the double one. */
  lemma LightenedRight(t: Tree, d: bool)
    requires t.Node? && Avl(t.l) && Avl(t.r) && t.bal == 1 && Height(t.r) == Height(t.l) + 2
    ensures t.r.Node? && (t.r.bal < 0 ==> t.r.l.Node?)
    ensures var q := Rebalanced(t, !d, d);
      && q.Node? && Avl(q)
      && Height(q) == (if t.r.bal == 0 then Height(t.r) + 1 else Height(t.r))
      && (q.bal == 0 <==> t.r.bal != 0)
  {
    assert Avl(t.r.l) && Avl(t.r.r);
    if t.r.bal < 0 {
      assert t.r.l.Node?;
      assert Avl(t.r.l.l) && Avl(t.r.l.r);
    }
  }

  lemma LightenedLeft(t: Tree, d: bool)
    requires t.Node? && Avl(t.l) && Avl(t.r) && t.bal == -1 && Height(t.l) == Height(t.r) + 2
    ensures t.l.Node? && (t.l.bal > 0 ==> t.l.r.Node?)
    ensures var q := Rebalanced(t, d, d);
      && q.Node? && Avl(q)
      && Height(q) == (if t.l.bal == 0 then Height(t.l) + 1 else Height(t.l))
      && (q.bal == 0 <==> t.l.bal != 0)
  {
    assert Avl(t.l.l) && Avl(t.l.r);
    if t.l.bal > 0 {
      assert t.l.r.Node?;
      assert Avl(t.l.r.l) && Avl(t.l.r.r);
    }
  }

  /** Rebalancing one node restores the balance there, loses no entry, and the test that ends
      the climb, (p->v_bal == 0) ^ d, is true exactly when the height is what it was; otherwise
      the height has changed by one in the direction of the change below. */
  lemma RebalancedIsBalanced(t: Tree, f: bool, d: bool, h: nat)
    requires Disturbed(t, f, d, h)
    ensures f != d && t.bal > 0 ==> t.r.Node? && (t.r.bal < 0 ==> t.r.l.Node?)
    ensures f == d && t.bal < 0 ==> t.l.Node? && (t.l.bal > 0 ==> t.l.r.Node?)
    ensures var q := Rebalanced(t, f, d);
      && q.Node? && Avl(q)
      && (((q.bal == 0) != d) <==> Height(q) == HeightBefore(t, f, h))
      && (((q.bal == 0) == d) <==> Grew(d, HeightBefore(t, f, h), Height(q)))
  {
    if f != d && t.bal > 0 {
      LightenedRight(t, d);
    } else if f == d && t.bal < 0 {
      LightenedLeft(t, d);
    }
  }

  /** Balance factors say nothing about the contents. */
  lemma Reweighed(q: Tree, q': Tree)
    requires q.Node? && q'.Node? && q'.x == q.x && q'.e == q.e
    requires q'.l == q.l || (q.l.Node? && q'.l.Node? && q'.l == q.l.(bal := q'.l.bal))
    requires q'.r == q.r || (q.r.Node? && q'.r.Node? && q'.r == q.r.(bal := q'.r.bal))
    ensures Entries(q') == Entries(q) && Nodes(q') == Nodes(q)
  {
  }

  lemma RebalancedEntries(t: Tree, f: bool, d: bool)
    requires t.Node?
    requires f != d && t.bal > 0 ==> t.r.Node? && (t.r.bal < 0 ==> t.r.l.Node?)
    requires f == d && t.bal < 0 ==> t.l.Node? && (t.l.bal > 0 ==> t.l.r.Node?)
    ensures Entries(Rebalanced(t, f, d)) == Entries(t)
    ensures Nodes(Rebalanced(t, f, d)) == Nodes(t)
  {
    if f != d && t.bal > 0 {
      var t' := if t.r.bal < 0 then t.(r := TurnedRight(t.r)) else t;
      TurnedEntries(t.r);
      TurnedEntries(t');
      Reweighed(TurnedLeft(t'), Rebalanced(t, f, d));
    } else if f == d && t.bal < 0 {
      var t' := if t.l.bal > 0 then t.(l := TurnedLeft(t.l)) else t;
      TurnedEntries(t.l);
      TurnedEntries(t');
      Reweighed(TurnedRight(t'), Rebalanced(t, f, d));
    } else {
      Reweighed(t, Rebalanced(t, f, d));
    }
  }
}
