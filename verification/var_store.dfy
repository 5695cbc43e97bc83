/** src/bin/csh/set.c: the store that keeps variables and aliases. */
module VarStore {
  import opened VarTree
  import opened VarShape

  /** What Shape says of a node and of its children. */
  lemma Around(t: Tree, parent: VarEnt)
    requires t.Node? && Shape(t, parent)
    ensures t.x.v_left == Root(t.l) && t.x.v_right == Root(t.r) && t.x.v_bal == t.bal && t.x.v_parent == parent
    ensures t.x.v_name == t.e.name && t.x.vec == t.e.vec
    ensures t.l.Node? ==> t.l.x in Nodes(t) && t.l.x != t.x && t.l.x.v_bal == t.l.bal && t.l.x.v_parent == t.x && Shape(t.l, t.x)
    ensures t.r.Node? ==> t.r.x in Nodes(t) && t.r.x != t.x && t.r.x.v_bal == t.r.bal && t.r.x.v_parent == t.x && Shape(t.r, t.x)
    ensures t.l.Node? && t.r.Node? ==> t.l.x != t.r.x
  {
    assert Read(t.x) == CellOf(t, parent, t.x);
    forall y | y in Nodes(t.l) ensures Read(y) == CellOf(t.l, t.x, y) {
      assert Read(y) == CellOf(t, parent, y);
    }
    forall y | y in Nodes(t.r) ensures Read(y) == CellOf(t.r, t.x, y) {
      assert Read(y) == CellOf(t, parent, y);
    }
    assert t.l.Node? ==> Read(t.l.x) == CellOf(t.l, t.x, t.l.x);
    assert t.r.Node? ==> Read(t.r.x) == CellOf(t.r, t.x, t.r.x);
  }

  lemma WithBals(u: Tree, bl: int, b: int, br: int)
    requires Distinct(u) && u.Node?
    ensures WithBal(u, u.x, b) == u.(bal := b)
    ensures u.l.Node? ==> WithBal(u, u.l.x, bl) == u.(l := u.l.(bal := bl))
    ensures u.r.Node? ==> WithBal(u, u.r.x, br) == u.(r := u.r.(bal := br))
  {
    if u.l.Node? {
      WithBalNodes(u.r, u.l.x, bl);
    }
    if u.r.Node? {
      WithBalNodes(u.l, u.r.x, br);
    }
  }

  /** The balance factors after a double rotation. */
  method SetThree(p: VarEnt, ghost u: Tree, ghost parent: VarEnt)
    requires u.Node? && u.l.Node? && u.r.Node? && p == u.x && Shape(u, parent)
    modifies Nodes(u)`v_bal
    ensures Shape(u.(l := u.l.(bal := if u.bal < 1 then 0 else -1), r := u.r.(bal := if u.bal > -1 then 0 else 1), bal := 0), parent)
  {
    Around(u, parent);
    ghost var bl, br := if u.bal < 1 then 0 else -1, if u.bal > -1 then 0 else 1;
    WithBals(u, bl, 0, br);
    SetBal(p.v_left, if p.v_bal < 1 then 0 else -1, u, parent);
    ghost var u1 := u.(l := u.l.(bal := bl));
    WithBals(u1, bl, 0, br);
    SetBal(p.v_right, if p.v_bal > -1 then 0 else 1, u1, parent);
    ghost var u2 := u1.(r := u.r.(bal := br));
    WithBals(u2, bl, 0, br);
    SetBal(p, 0, u2, parent);
  }

  /** A single rotation to the left, and the balance factors that go with it. */
  method SingleLeft(p0: VarEnt, pp: VarEnt, ff: bool, bl: int, b: int, ghost t: Tree, ghost up: Path, ghost head: VarEnt) returns (p: VarEnt)
    requires CanTurnLeft(t) && p0 == t.x && Store(up, t, head) && pp == Holder(up, head) && ff == (up.In? && up.f)
    modifies Nodes(t), pp`v_left, pp`v_right
    ensures p == t.r.x
    ensures var u := TurnedLeft(t); Store(up, u.(l := u.l.(bal := bl), bal := b), head)
  {
    ghost var u := TurnedLeft(t);
    PathNodesExist(up);
    NodesExist(t);
    TurnedDistinct(t);
    p := RotateLeft(p0, t, pp);
    Relink(pp, ff, p, up, t.x, head);
    Around(u, pp);
    WithBals(u, bl, b, 0);
    SetBal(p.v_left, bl, u, pp);
    WithBals(u.(l := u.l.(bal := bl)), bl, b, 0);
    SetBal(p, b, u.(l := u.l.(bal := bl)), pp);
  }

  method SingleRight(p0: VarEnt, pp: VarEnt, ff: bool, br: int, b: int, ghost t: Tree, ghost up: Path, ghost head: VarEnt) returns (p: VarEnt)
    requires CanTurnRight(t) && p0 == t.x && Store(up, t, head) && pp == Holder(up, head) && ff == (up.In? && up.f)
    modifies Nodes(t), pp`v_left, pp`v_right
    ensures p == t.l.x
    ensures var u := TurnedRight(t); Store(up, u.(r := u.r.(bal := br), bal := b), head)
  {
    ghost var u := TurnedRight(t);
    PathNodesExist(up);
    NodesExist(t);
    TurnedDistinct(t);
    p := RotateRight(p0, t, pp);
    Relink(pp, ff, p, up, t.x, head);
    Around(u, pp);
    WithBals(u, 0, b, br);
    SetBal(p.v_right, br, u, pp);
    WithBals(u.(r := u.r.(bal := br)), 0, b, br);
    SetBal(p, b, u.(r := u.r.(bal := br)), pp);
  }

  /** The right turn of the right child, which leaves p itself where it is. */
  method TurnRightChild(p: VarEnt, ghost t: Tree, ghost parent: VarEnt)
    requires t.Node? && CanTurnRight(t.r) && p == t.x && Shape(t, parent) && parent !in Nodes(t)
    modifies Nodes(t)
    ensures Shape(t.(r := TurnedRight(t.r)), parent)
  {
    ghost var t' := t.(r := TurnedRight(t.r));
    Around(t, parent);
    TurnedDistinct(t.r);
    NodesExist(t);
    ghost var was := map y | y in Nodes(t) :: Read(y);
    var q := RotateRight(p.v_right, t.r, p);
    p.v_right := q;
    forall y | y in Nodes(t') ensures Read(y) == CellOf(t', parent, y) {
      assert was[y] == CellOf(t, parent, y);
      if y in Nodes(t.r) {
        assert Read(y) == CellOf(t'.r, p, y);
      } else {
        assert y != p ==> Read(y) == was[y];
      }
    }
  }

  method DoubleLeft(p0: VarEnt, pp: VarEnt, ff: bool, ghost t: Tree, ghost up: Path, ghost head: VarEnt) returns (p: VarEnt)
    requires t.Node? && CanTurnRight(t.r) && p0 == t.x && Store(up, t, head) && pp == Holder(up, head) && ff == (up.In? && up.f)
    requires t.bal > 0 && t.r.bal < 0
    modifies Nodes(t), pp`v_left, pp`v_right
    ensures Store(up, Rebalanced(t, true, false), head) && p == Rebalanced(t, true, false).x
  {
    ghost var t' := t.(r := TurnedRight(t.r));
    PathNodesExist(up);
    NodesExist(t);
    TurnedDistinct(t.r);
    TurnRightChild(p0, t, pp);
    TurnedDistinct(t');
    p := RotateLeft(p0, t', pp);
    Relink(pp, ff, p, up, t.x, head);
    SetThree(p, TurnedLeft(t'), pp);
  }

  /** The left turn of the left child, which leaves p itself where it is. */
  method TurnLeftChild(p: VarEnt, ghost t: Tree, ghost parent: VarEnt)
    requires t.Node? && CanTurnLeft(t.l) && p == t.x && Shape(t, parent) && parent !in Nodes(t)
    modifies Nodes(t)
    ensures Shape(t.(l := TurnedLeft(t.l)), parent)
  {
    ghost var t' := t.(l := TurnedLeft(t.l));
    Around(t, parent);
    TurnedDistinct(t.l);
    NodesExist(t);
    ghost var was := map y | y in Nodes(t) :: Read(y);
    var q := RotateLeft(p.v_left, t.l, p);
    p.v_left := q;
    forall y | y in Nodes(t') ensures Read(y) == CellOf(t', parent, y) {
      assert was[y] == CellOf(t, parent, y);
      if y in Nodes(t.l) {
        assert Read(y) == CellOf(t'.l, p, y);
      } else {
        assert y != p ==> Read(y) == was[y];
      }
    }
  }

  method DoubleRight(p0: VarEnt, pp: VarEnt, ff: bool, ghost t: Tree, ghost up: Path, ghost head: VarEnt) returns (p: VarEnt)
    requires t.Node? && CanTurnLeft(t.l) && p0 == t.x && Store(up, t, head) && pp == Holder(up, head) && ff == (up.In? && up.f)
    requires t.bal < 0 && t.l.bal > 0
    modifies Nodes(t), pp`v_left, pp`v_right
    ensures Store(up, Rebalanced(t, false, false), head) && p == Rebalanced(t, false, false).x
  {
    ghost var t' := t.(l := TurnedLeft(t.l));
    PathNodesExist(up);
    NodesExist(t);
    TurnedDistinct(t.l);
    TurnLeftChild(p0, t, pp);
    TurnedDistinct(t');
    p := RotateRight(p0, t', pp);
    Relink(pp, ff, p, up, t.x, head);
    SetThree(p, TurnedRight(t'), pp);
  }

  /** One turn of the loop of balance: the switch statements. */
  method BalanceNode(p0: VarEnt, pp: VarEnt, f: bool, ff: bool, d: bool, ghost t: Tree, ghost up: Path, ghost head: VarEnt)
    returns (p: VarEnt)
    requires t.Node? && p0 == t.x && Store(up, t, head) && pp == Holder(up, head) && ff == (up.In? && up.f)
    requires -1 <= t.bal <= 1 && (t.r.Node? ==> -1 <= t.r.bal <= 1) && (t.l.Node? ==> -1 <= t.l.bal <= 1)
    requires (f != d) && t.bal > 0 ==> t.r.Node? && (t.r.bal < 0 ==> t.r.l.Node?)
    requires (f == d) && t.bal < 0 ==> t.l.Node? && (t.l.bal > 0 ==> t.l.r.Node?)
    modifies Nodes(t), pp`v_left, pp`v_right
    ensures Store(up, Rebalanced(t, f, d), head) && p == Rebalanced(t, f, d).x
  {
    p := p0;
    PathNodesExist(up);
    Around(t, pp);
    WithBals(t, 0, if p.v_bal == 0 then (if f != d then 1 else -1) else 0, 0);
    if f != d {
      match p.v_bal {
        case -1 => SetBal(p, 0, t, pp);
        case 0 => SetBal(p, 1, t, pp);
        case _ =>
          match p.v_right.v_bal {
            case 1 => p := SingleLeft(p, pp, ff, 0, 0, t, up, head);
            case 0 => p := SingleLeft(p, pp, ff, 1, -1, t, up, head);
            case _ => p := DoubleLeft(p, pp, ff, t, up, head);
          }
      }
    } else {
      match p.v_bal {
        case 1 => SetBal(p, 0, t, pp);
        case 0 => SetBal(p, -1, t, pp);
        case _ =>
          match p.v_left.v_bal {
            case -1 => p := SingleRight(p, pp, ff, 0, 0, t, up, head);
            case 0 => p := SingleRight(p, pp, ff, -1, 1, t, up, head);
            case _ => p := DoubleRight(p, pp, ff, t, up, head);
          }
      }
    }
  }

  /** What the store says of the node that holds the hole. */
  lemma AroundHole(p: Path, t: Tree, head: VarEnt)
    requires Store(p, t, head)
    ensures Holder(p, head).v_parent == null <==> p.Top?
    ensures p.Top? ==> head.v_right == null && head.v_left == Root(t)
    ensures p.In? ==> p.x.v_parent == Holder(p.up, head) && p.x.Link(p.f) == Root(t) && p.x.Link(!p.f) == Root(p.sib)
    ensures t.Node? ==> (Holder(p, head).v_right == t.x <==> p.In? && p.f)
  {
    if p.In? {
      assert Read(p.x) == PathCell(p, head, Root(t), p.x);
    }
  }

  /** What BalanceStep says of values: u is the node whose f child has changed in height from h. */
  ghost predicate Climbed(up: Path, u: Tree, f: bool, d: bool, h: nat, q: Tree, stop: bool)
    requires u.Node?
  {
    && q.Node? && Avl(q) && Entries(q) == Entries(u) && Nodes(q) == Nodes(u)
    && AvlPath(up, HeightBefore(u, f, h))
    && (stop <==> Height(q) == HeightBefore(u, f, h))
    && (!stop <==> Grew(d, HeightBefore(u, f, h), Height(q)))
  }

  lemma FilledIsDisturbed(path: Path, c: Tree, d: bool, h: nat)
    requires path.In? && Avl(c) && AvlPath(path, h) && Grew(d, h, Height(c))
    ensures Disturbed(Fill(path, c), path.f, d, h)
    ensures AvlPath(path.up, HeightBefore(Fill(path, c), path.f, h))
  {
    hide Avl, Height;
  }

  lemma FilledBals(path: Path, c: Tree, h: nat)
    requires path.In? && Avl(c) && AvlPath(path, h)
    ensures var u := Fill(path, c);
      -1 <= u.bal <= 1 && (u.r.Node? ==> -1 <= u.r.bal <= 1) && (u.l.Node? ==> -1 <= u.l.bal <= 1)
  {
  }

  lemma Climb(path: Path, c: Tree, d: bool, h: nat)
    requires path.In? && Avl(c) && AvlPath(path, h) && Grew(d, h, Height(c))
    ensures var u, f := Fill(path, c), path.f;
      && -1 <= u.bal <= 1 && (u.r.Node? ==> -1 <= u.r.bal <= 1) && (u.l.Node? ==> -1 <= u.l.bal <= 1)
      && ((f != d) && u.bal > 0 ==> u.r.Node? && (u.r.bal < 0 ==> u.r.l.Node?))
      && ((f == d) && u.bal < 0 ==> u.l.Node? && (u.l.bal > 0 ==> u.l.r.Node?))
      && Climbed(path.up, u, f, d, h, Rebalanced(u, f, d), (Rebalanced(u, f, d).bal == 0) != d)
  {
    FilledIsDisturbed(path, c, d, h);
    FilledBals(path, c, h);
    RebalancedIsBalanced(Fill(path, c), path.f, d, h);
    RebalancedEntries(Fill(path, c), path.f, d);
  }

  /** One turn of the loop of balance. It stops there exactly when the height of what hangs
      from pp is what it was before the change; otherwise that has changed by one as well. */
  method BalanceStep(p0: VarEnt, f: bool, d: bool, head: VarEnt, ghost path: Path, ghost c: Tree, ghost h: nat)
    returns (pp: VarEnt, ff: bool, stop: bool, ghost q: Tree)
    requires path.In? && Store(path, c, head) && p0 == path.x && f == path.f
    requires Avl(c) && AvlPath(path, h) && Grew(d, h, Height(c))
    modifies PathNodes(path), Nodes(c), head`v_left, head`v_right
    ensures Store(path.up, q, head) && pp == Holder(path.up, head) && ff == (path.up.In? && path.up.f)
    ensures Climbed(path.up, Fill(path, c), f, d, h, q, stop)
  {
    var p := p0;
    AroundHole(path, c, head);
    StepUp(path, c, head);
    ghost var up, u := path.up, Fill(path, c);
    AroundHole(up, u, head);
    pp := p.v_parent;
    ff := pp.v_right == p;
    Climb(path, c, d, h);
    p := BalanceNode(p, pp, f, ff, d, u, up, head);
    q := Rebalanced(u, f, d);
    assert p.v_bal == q.bal by {
      Around(q, pp);
    }
    stop := (p.v_bal == 0) != d;
  }

  /** The climb leaves the order of the entries and the set of nodes alone. */
  ghost predicate Same(path0: Path, c0: Tree, path: Path, c: Tree) {
    && Entries(Plug(path, c)) == Before(path0) + Entries(c0) + After(path0)
    && PathNodes(path) + Nodes(c) == PathNodes(path0) + Nodes(c0)
  }

  lemma SameStep(path0: Path, c0: Tree, path: Path, c: Tree, q: Tree)
    requires path.In? && Same(path0, c0, path, c)
    requires Entries(q) == Entries(Fill(path, c)) && Nodes(q) == Nodes(Fill(path, c))
    ensures Same(path0, c0, path.up, q)
  {
    PlugEntries(path.up, Fill(path, c));
    PlugEntries(path.up, q);
  }

  lemma Finish(path0: Path, c0: Tree, path: Path, c: Tree, head: VarEnt)
    requires Store(path, c, head) && Avl(c) && AvlPath(path, Height(c)) && Same(path0, c0, path, c)
    ensures var t := Plug(path, c);
      && Store(Top, t, head) && Avl(t)
      && Entries(t) == Before(path0) + Entries(c0) + After(path0)
      && Nodes(t) == PathNodes(path0) + Nodes(c0)
  {
    Ascend(path, c, head);
    AvlPlug(path, c);
    PlugNodes(path, c);
  }

  /** balance(p, f, d): rebalance a store from p up, after the f child of p has grown (an
      insert, d false) or shrunk (a delete, d true). */
  method Balance(p0: VarEnt, f0: bool, d: bool, head: VarEnt, ghost path0: Path, ghost c0: Tree, ghost h0: nat)
    returns (ghost t: Tree)
    requires Store(path0, c0, head) && p0 == Holder(path0, head) && f0 == (path0.In? && path0.f)
    requires Avl(c0) && AvlPath(path0, h0) && Grew(d, h0, Height(c0))
    modifies PathNodes(path0), Nodes(c0), head`v_left, head`v_right
    ensures Store(Top, t, head) && Avl(t)
    ensures Entries(t) == Before(path0) + Entries(c0) + After(path0)
    ensures Nodes(t) == PathNodes(path0) + Nodes(c0)
  {
    var p, f := p0, f0;
    ghost var path, c, h := path0, c0, h0;
    PlugEntries(path, c);
    AroundHole(path, c, head);
    while p.v_parent != null
      invariant Store(path, c, head) && p == Holder(path, head) && f == (path.In? && path.f)
      invariant Avl(c) && AvlPath(path, h) && Grew(d, h, Height(c))
      invariant p.v_parent == null <==> path.Top?
      invariant Same(path0, c0, path, c)
      decreases path
    {
      ghost var u, q := Fill(path, c), Leaf;
      var pp, ff, stop;
      pp, ff, stop, q := BalanceStep(p, f, d, head, path, c, h);
      SameStep(path0, c0, path, c, q);
      AroundHole(path.up, q, head);
      path, c, h := path.up, q, HeightBefore(u, f, h);
      if stop {
        break;
      }
      p, f := pp, ff;
    }
    t := Plug(path, c);
    Finish(path0, c0, path, c, head);
  }
}
