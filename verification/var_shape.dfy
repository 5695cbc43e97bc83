/** Which heap a tree or path value describes, and the pointer rotations on that heap. */
module VarShape {
  import opened VarTree

  /** What one node holds. */
  datatype Cell = Cell(left: VarEnt?, right: VarEnt?, parent: VarEnt?, e: Entry, bal: int)

  ghost function Read(x: VarEnt): Cell
    reads x
  {
    Cell(x.v_left, x.v_right, x.v_parent, Entry(x.v_name, x.vec), x.v_bal)
  }

  ghost predicate Distinct(t: Tree) {
    t.Node? ==>
      && t.x !in Nodes(t.l) && t.x !in Nodes(t.r) && Nodes(t.l) !! Nodes(t.r)
      && Distinct(t.l) && Distinct(t.r)
  }

  ghost predicate DistinctPath(p: Path) {
    p.In? ==>
      && p.x !in PathNodes(p.up) && p.x !in Nodes(p.sib) && PathNodes(p.up) !! Nodes(p.sib)
      && Distinct(p.sib) && DistinctPath(p.up)
  }

  /** What the node x of t should hold, if parent holds t. */
  ghost function CellOf(t: Tree, parent: VarEnt, x: VarEnt): Cell
    requires x in Nodes(t)
  {
    if x == t.x then Cell(Root(t.l), Root(t.r), parent, t.e, t.bal)
    else if x in Nodes(t.l) then CellOf(t.l, t.x, x)
    else CellOf(t.r, t.x, x)
  }

  /** What the node x of the path should hold, if hole is in the hole. */
  ghost function PathCell(p: Path, head: VarEnt, hole: VarEnt?, x: VarEnt): Cell
    requires x in PathNodes(p)
  {
    if x == p.x then
      Cell(if p.f then Root(p.sib) else hole, if p.f then hole else Root(p.sib), Holder(p.up, head), p.e, p.bal)
    else if x in Nodes(p.sib) then CellOf(p.sib, p.x, x)
    else PathCell(p.up, head, p.x, x)
  }

  ghost predicate Shape(t: Tree, parent: VarEnt)
    reads Nodes(t)
  {
    Distinct(t) && forall x {:trigger Read(x)} {:trigger CellOf(t, parent, x)} :: x in Nodes(t) ==> Read(x) == CellOf(t, parent, x)
  }

  /** The nodes of the path hang together from the header down, with hole in the hole. Only the
      header has no parent, and the header has no right link. */
  ghost predicate PathShape(p: Path, head: VarEnt, hole: VarEnt?)
    reads head, PathNodes(p)
  {
    && DistinctPath(p) && head !in PathNodes(p)
    && head.v_left == (if p.Top? then hole else TopOf(p)) && head.v_right == null && head.v_parent == null
    && forall x {:trigger Read(x)} {:trigger PathCell(p, head, hole, x)} :: x in PathNodes(p) ==> Read(x) == PathCell(p, head, hole, x)
  }

  ghost function TopOf(p: Path): VarEnt
    requires p.In?
  {
    if p.up.Top? then p.x else TopOf(p.up)
  }

  /** The whole store: a path, and the subtree in its hole. */
  ghost predicate Store(p: Path, t: Tree, head: VarEnt)
    reads head, PathNodes(p), Nodes(t)
  {
    && head !in Nodes(t) && PathNodes(p) !! Nodes(t)
    && PathShape(p, head, Root(t)) && Shape(t, Holder(p, head))
  }

  /** The values name existing nodes only. */
  lemma {:induction false} NodesExist(t: Tree)
    ensures forall x :: x in Nodes(t) ==> allocated(x)
  {
    if t.Node? {
      NodesExist(t.l);
      NodesExist(t.r);
    }
  }

  lemma {:induction false} PathNodesExist(p: Path)
    ensures forall x :: x in PathNodes(p) ==> allocated(x)
  {
    if p.In? {
      PathNodesExist(p.up);
      NodesExist(p.sib);
    }
  }

  lemma {:induction false} PlugNodes(p: Path, t: Tree)
    ensures Nodes(Plug(p, t)) == PathNodes(p) + Nodes(t)
  {
    if p.In? {
      PlugNodes(p.up, Fill(p, t));
    }
  }

  /** A store may be looked at from any of its nodes. */
  lemma StepDown(p: Path, t: Tree, head: VarEnt)
    requires p.In? && Store(p.up, Fill(p, t), head)
    ensures Store(p, t, head)
  {
    forall x | x in Nodes(t) ensures Read(x) == CellOf(t, p.x, x) {
      assert Read(x) == CellOf(Fill(p, t), Holder(p.up, head), x);
    }
    forall x | x in PathNodes(p) ensures Read(x) == PathCell(p, head, Root(t), x) {
      if x in PathNodes(p.up) {
        assert Read(x) == PathCell(p.up, head, p.x, x);
      } else {
        assert Read(x) == CellOf(Fill(p, t), Holder(p.up, head), x);
      }
    }
  }

  lemma StepUp(p: Path, t: Tree, head: VarEnt)
    requires p.In? && Store(p, t, head)
    ensures Store(p.up, Fill(p, t), head)
  {
    var u := Fill(p, t);
    forall x | x in Nodes(u) ensures Read(x) == CellOf(u, Holder(p.up, head), x) {
      if x in Nodes(t) {
        assert Read(x) == CellOf(t, p.x, x);
      } else {
        assert Read(x) == PathCell(p, head, Root(t), x);
      }
    }
    forall x | x in PathNodes(p.up) ensures Read(x) == PathCell(p.up, head, p.x, x) {
      assert Read(x) == PathCell(p, head, Root(t), x);
    }
  }

  lemma {:induction false} Descend(p: Path, t: Tree, head: VarEnt)
    requires Store(Top, Plug(p, t), head)
    ensures Store(p, t, head)
  {
    if p.In? {
      Descend(p.up, Fill(p, t), head);
      StepDown(p, t, head);
    }
  }

  lemma {:induction false} Ascend(p: Path, t: Tree, head: VarEnt)
    requires Store(p, t, head)
    ensures Store(Top, Plug(p, t), head)
  {
    if p.In? {
      StepUp(p, t, head);
      Ascend(p.up, Fill(p, t), head);
    }
  }

  lemma TurnedDistinct(t: Tree)
    requires Distinct(t)
    ensures CanTurnLeft(t) ==> Distinct(TurnedLeft(t)) && Nodes(TurnedLeft(t)) == Nodes(t)
    ensures CanTurnRight(t) ==> Distinct(TurnedRight(t)) && Nodes(TurnedRight(t)) == Nodes(t)
  {
    TurnedEntries(t);
  }

  /** Which cells a left rotation of t changes. */
  lemma TurnedLeftCell(t: Tree, parent: VarEnt, x: VarEnt)
    requires Distinct(t) && CanTurnLeft(t) && x in Nodes(t)
    ensures x in Nodes(TurnedLeft(t))
    ensures CellOf(TurnedLeft(t), parent, x) ==
      if x == t.x then CellOf(t, parent, x).(right := Root(t.r.l), parent := t.r.x)
      else if x == t.r.x then CellOf(t, parent, x).(left := t.x, parent := parent)
      else if x == Root(t.r.l) then CellOf(t, parent, x).(parent := t.x)
      else CellOf(t, parent, x)
  {
    TurnedEntries(t);
    var u := TurnedLeft(t);
    assert x in Nodes(t.l) ==> x in Nodes(u.l) && CellOf(u, parent, x) == CellOf(u.l, u.x, x) == CellOf(t.l, t.x, x);
    assert x in Nodes(t.r) ==> CellOf(t, parent, x) == CellOf(t.r, t.x, x);
    assert x in Nodes(t.r.l) ==> x in Nodes(u.l) && CellOf(u, parent, x) == CellOf(u.l, u.x, x) == CellOf(t.r.l, t.x, x);
    assert x in Nodes(t.r.l) ==> CellOf(t.r, t.x, x) == CellOf(t.r.l, t.r.x, x);
    assert x in Nodes(t.r.r) ==> CellOf(t.r, t.x, x) == CellOf(t.r.r, t.r.x, x) == CellOf(u, parent, x);
    assert x == t.x ==> x in Nodes(u.l) && CellOf(u, parent, x) == CellOf(u.l, u.x, x);
    assert x == t.r.x ==> x in Nodes(t.r);
  }

  lemma TurnedRightCell(t: Tree, parent: VarEnt, x: VarEnt)
    requires Distinct(t) && CanTurnRight(t) && x in Nodes(t)
    ensures x in Nodes(TurnedRight(t))
    ensures CellOf(TurnedRight(t), parent, x) ==
      if x == t.x then CellOf(t, parent, x).(left := Root(t.l.r), parent := t.l.x)
      else if x == t.l.x then CellOf(t, parent, x).(right := t.x, parent := parent)
      else if x == Root(t.l.r) then CellOf(t, parent, x).(parent := t.x)
      else CellOf(t, parent, x)
  {
    TurnedEntries(t);
    var u := TurnedRight(t);
    assert x in Nodes(t.r) ==> x in Nodes(u.r) && CellOf(u, parent, x) == CellOf(u.r, u.x, x) == CellOf(t.r, t.x, x);
    assert x in Nodes(t.l) ==> CellOf(t, parent, x) == CellOf(t.l, t.x, x);
    assert x in Nodes(t.l.r) ==> x in Nodes(u.r) && CellOf(u, parent, x) == CellOf(u.r, u.x, x) == CellOf(t.l.r, t.x, x);
    assert x in Nodes(t.l.r) ==> CellOf(t.l, t.x, x) == CellOf(t.l.r, t.l.x, x);
    assert x in Nodes(t.l.l) ==> CellOf(t.l, t.x, x) == CellOf(t.l.l, t.l.x, x) == CellOf(u, parent, x);
    assert x == t.x ==> x in Nodes(u.r) && CellOf(u, parent, x) == CellOf(u.r, u.x, x);
    assert x == t.l.x ==> x in Nodes(t.l);
  }

  /** The macro rleft(n), but for the store to the link that led to n. */
  method RotateLeft(n: VarEnt, ghost t: Tree, ghost parent: VarEnt) returns (top: VarEnt)
    requires CanTurnLeft(t) && n == t.x && Shape(t, parent)
    modifies Nodes(t)`v_left, Nodes(t)`v_right, Nodes(t)`v_parent
    ensures top == TurnedLeft(t).x && Shape(TurnedLeft(t), parent)
  {
    ghost var b := t.r.l;
    assert Read(n) == CellOf(t, parent, n);
    assert Read(t.r.x) == CellOf(t, parent, t.r.x);
    assert b.Node? ==> b.x in Nodes(t.r.l) && b.x in Nodes(t.r);
    assert b.Node? ==> Read(b.x) == CellOf(t, parent, b.x);
    TurnedDistinct(t);
    ghost var was := map x | x in Nodes(t) :: Read(x);
    top := n.v_right;
    top.v_parent := n.v_parent;
    n.v_right := top.v_left;
    if top.v_left != null {
      top.v_left.v_parent := n;
    }
    top.v_left := n;
    n.v_parent := top;
    forall x | x in Nodes(TurnedLeft(t)) ensures Read(x) == CellOf(TurnedLeft(t), parent, x) {
      TurnedLeftCell(t, parent, x);
      assert was[x] == CellOf(t, parent, x);
    }
  }

  /** The macro rright(n), but for the store to the link that led to n. */
  method RotateRight(n: VarEnt, ghost t: Tree, ghost parent: VarEnt) returns (top: VarEnt)
    requires CanTurnRight(t) && n == t.x && Shape(t, parent)
    modifies Nodes(t)`v_left, Nodes(t)`v_right, Nodes(t)`v_parent
    ensures top == TurnedRight(t).x && Shape(TurnedRight(t), parent)
  {
    ghost var b := t.l.r;
    assert Read(n) == CellOf(t, parent, n);
    assert Read(t.l.x) == CellOf(t, parent, t.l.x);
    assert b.Node? ==> b.x in Nodes(t.l.r) && b.x in Nodes(t.l);
    assert b.Node? ==> Read(b.x) == CellOf(t, parent, b.x);
    TurnedDistinct(t);
    ghost var was := map x | x in Nodes(t) :: Read(x);
    top := n.v_left;
    top.v_parent := n.v_parent;
    n.v_left := top.v_right;
    if top.v_right != null {
      top.v_right.v_parent := n;
    }
    top.v_right := n;
    n.v_parent := top;
    forall x | x in Nodes(TurnedRight(t)) ensures Read(x) == CellOf(TurnedRight(t), parent, x) {
      TurnedRightCell(t, parent, x);
      assert was[x] == CellOf(t, parent, x);
    }
  }

  ghost function WithBal(t: Tree, x: VarEnt, b: int): Tree {
    if t.Leaf? then t
    else if t.x == x then t.(bal := b)
    else t.(l := WithBal(t.l, x, b), r := WithBal(t.r, x, b))
  }

  lemma {:induction false} WithBalNodes(t: Tree, x: VarEnt, b: int)
    ensures Nodes(WithBal(t, x, b)) == Nodes(t) && Root(WithBal(t, x, b)) == Root(t)
    ensures Distinct(t) ==> Distinct(WithBal(t, x, b))
    ensures x !in Nodes(t) ==> WithBal(t, x, b) == t
  {
    if t.Node? {
      WithBalNodes(t.l, x, b);
      WithBalNodes(t.r, x, b);
    }
  }

  lemma {:induction false} WithBalCell(t: Tree, parent: VarEnt, x: VarEnt, b: int, y: VarEnt)
    requires y in Nodes(t)
    ensures y in Nodes(WithBal(t, x, b))
    ensures CellOf(WithBal(t, x, b), parent, y) == if x == y then CellOf(t, parent, y).(bal := b) else CellOf(t, parent, y)
  {
    WithBalNodes(t, x, b);
    WithBalNodes(t.l, x, b);
    WithBalNodes(t.r, x, b);
    if y != t.x && t.x != x {
      if y in Nodes(t.l) {
        WithBalCell(t.l, t.x, x, b, y);
      } else {
        WithBalCell(t.r, t.x, x, b, y);
      }
    }
  }

  method SetBal(x: VarEnt, b: int, ghost t: Tree, ghost parent: VarEnt)
    requires Shape(t, parent) && x in Nodes(t)
    modifies x`v_bal
    ensures Shape(WithBal(t, x, b), parent)
  {
    ghost var was := map y | y in Nodes(t) :: Read(y);
    WithBalNodes(t, x, b);
    x.v_bal := b;
    forall y | y in Nodes(WithBal(t, x, b)) ensures Read(y) == CellOf(WithBal(t, x, b), parent, y) {
      WithBalCell(t, parent, x, b, y);
      assert was[y] == CellOf(t, parent, y);
    }
  }

  /** Putting another node in the hole. */
  method Relink(pp: VarEnt, ff: bool, q: VarEnt?, ghost up: Path, ghost hole: VarEnt?, ghost head: VarEnt)
    requires PathShape(up, head, hole) && pp == Holder(up, head) && ff == (up.In? && up.f)
    modifies pp`v_left, pp`v_right
    ensures PathShape(up, head, q)
  {
    ghost var was := map y | y in PathNodes(up) :: Read(y);
    assert up.In? ==> Read(pp) == PathCell(up, head, hole, pp);
    PathNodesExist(up);
    pp.SetLink(ff, q);
    forall y | y in PathNodes(up) ensures Read(y) == PathCell(up, head, q, y) {
      assert was[y] == PathCell(up, head, hole, y);
      if y == pp {
        assert PathCell(up, head, q, y) ==
               if ff then PathCell(up, head, hole, y).(right := q) else PathCell(up, head, hole, y).(left := q);
      } else {
        assert Read(y) == was[y];
        assert PathCell(up, head, q, y) == PathCell(up, head, hole, y);
      }
    }
  }
}
