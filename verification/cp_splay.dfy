/** src/bin/cp/cp.c: the top-down splay, and the search and insert that rest on it. */
module CpSplay {
  import opened SlotTree

  /** t with the rotation to the right (d) or to the left at its root. */
  ghost function Rotated(t: Tree, d: bool): Tree
    requires t.Node? && (if d then t.l.Node? else t.r.Node?)
  {
    if d then Node(t.l.l, t.l.it, Node(t.l.r, t.it, t.r)) else Node(Node(t.l, t.it, t.r.l), t.r.it, t.r.r)
  }

  lemma RotatedSays(t: Tree, d: bool)
    requires t.Node? && (if d then t.l.Node? else t.r.Node?)
    ensures var u := Rotated(t, d);
      && u.Node? && Items(u) == Items(t) && Size(u) == Size(t) && Nodes(u) == Nodes(t)
      && (Distinct(t) ==> Distinct(u)) && u.it == (if d then t.l.it else t.r.it)
  {
    if d {
      assert Distinct(t) ==> Distinct(t.l) && Distinct(Rotated(t, d).r);
      Tilt(Items(t.l.l), t.l.it, Items(t.l.r), t.it, Items(t.r));
    } else {
      assert Distinct(t) ==> Distinct(t.r) && Distinct(Rotated(t, d).l);
      Tilt(Items(t.l), t.it, Items(t.r.l), t.r.it, Items(t.r.r));
    }
  }

  lemma Tilt(a: seq<Item>, x: Item, b: seq<Item>, y: Item, c: seq<Item>)
    ensures a + [x] + (b + [y] + c) == (a + [x] + b) + [y] + c
  {
  }

  /** The links that the rotation changes. */
  lemma RotatedCell(t: Tree, d: bool, nul: ISlot, z: ISlot)
    requires t.Node? && (if d then t.l.Node? else t.r.Node?) && Distinct(t) && z in Nodes(t)
    ensures z in Nodes(Rotated(t, d))
    ensures var c, y := CellOf(t, nul, z), if d then t.l else t.r;
      CellOf(Rotated(t, d), nul, z) ==
        if z == t.it.node then if d then c.(lln := Root(y.r, nul)) else c.(rln := Root(y.l, nul))
        else if z == y.it.node then if d then c.(rln := t.it.node) else c.(lln := t.it.node)
        else c
  {
    RotatedSays(t, d);
    if d {
      assert Distinct(t.l);
    } else {
      assert Distinct(t.r);
    }
  }

  /** The left child y of x comes up in its place, and x becomes the right child of y. */
  method RotateRight(x: ISlot, ghost t: Tree, ghost nul: ISlot) returns (y: ISlot)
    requires Shape(t, nul) && t.Node? && t.l.Node? && x == t.it.node
    modifies Nodes(t)`i_lln, Nodes(t)`i_rln
    ensures y == t.l.it.node && Shape(Rotated(t, true), nul)
  {
    ghost var u := Rotated(t, true);
    RotatedSays(t, true);
    assert Read(x) == CellOf(t, nul, x);
    y := x.i_lln;
    assert Read(y) == CellOf(t, nul, y);
    ghost var was := map z | z in Nodes(t) :: Read(z);
    x.i_lln := y.i_rln;
    y.i_rln := x;
    forall z | z in Nodes(u) ensures Read(z) == CellOf(u, nul, z) {
      RotatedCell(t, true, nul, z);
      assert was[z] == CellOf(t, nul, z);
    }
  }

  /** The right child y of x comes up in its place, and x becomes the left child of y. */
  method RotateLeft(x: ISlot, ghost t: Tree, ghost nul: ISlot) returns (y: ISlot)
    requires Shape(t, nul) && t.Node? && t.r.Node? && x == t.it.node
    modifies Nodes(t)`i_lln, Nodes(t)`i_rln
    ensures y == t.r.it.node && Shape(Rotated(t, false), nul)
  {
    ghost var u := Rotated(t, false);
    RotatedSays(t, false);
    assert Read(x) == CellOf(t, nul, x);
    y := x.i_rln;
    assert Read(y) == CellOf(t, nul, y);
    ghost var was := map z | z in Nodes(t) :: Read(z);
    x.i_rln := y.i_lln;
    y.i_lln := x;
    forall z | z in Nodes(u) ensures Read(z) == CellOf(u, nul, z) {
      RotatedCell(t, false, nul, z);
      assert was[z] == CellOf(t, nul, z);
    }
  }

  /** What is in the hole of a spine at present. */
  ghost function Hole(s: Spine, d: bool, hdr: ISlot): ISlot?
    reads Tip(s, hdr)
  {
    if d then Tip(s, hdr).i_rln else Tip(s, hdr).i_lln
  }

  /** The three parts of a splay: what is left of the key, the subtree that may hold it, and what
      is right of it. */
  ghost predicate Splaying(l: Spine, t: Tree, r: Spine, hdr: ISlot, nul: ISlot)
    reads hdr, SpineNodes(l), Nodes(t), SpineNodes(r)
  {
    && t.Node? && Shape(t, nul) && hdr != nul && hdr !in Nodes(t)
    && SpineNodes(l) !! Nodes(t) && SpineNodes(r) !! Nodes(t) && SpineNodes(l) !! SpineNodes(r)
    && SpineShape(l, true, hdr, nul, Hole(l, true, hdr))
    && SpineShape(r, false, hdr, nul, Hole(r, false, hdr))
  }

  /** The hole of the left spine is filled with x. */
  method FillLeft(leftmax: ISlot, x: ISlot?, ghost l: Spine, ghost r: Spine, ghost hdr: ISlot, ghost nul: ISlot)
    requires leftmax == Tip(l, hdr) && SpineNodes(l) !! SpineNodes(r)
    requires SpineShape(l, true, hdr, nul, Hole(l, true, hdr)) && SpineShape(r, false, hdr, nul, Hole(r, false, hdr))
    modifies leftmax`i_rln
    ensures SpineShape(l, true, hdr, nul, x) && SpineShape(r, false, hdr, nul, Hole(r, false, hdr))
  {
    ghost var h, h' := Hole(l, true, hdr), Hole(r, false, hdr);
    ghost var was := map z | z in SpineNodes(l) + SpineNodes(r) :: Read(z);
    TopIn(l, h);
    SpineNodesExist(l);
    SpineNodesExist(r);
    leftmax.i_rln := x;
    forall z | z in SpineNodes(l) ensures Read(z) == SpineCell(l, true, nul, x, z) {
      assert was[z] == SpineCell(l, true, nul, h, z);
    }
    forall z | z in SpineNodes(r) ensures Read(z) == SpineCell(r, false, nul, h', z) {
      assert was[z] == SpineCell(r, false, nul, h', z);
    }
  }

  /** The hole of the right spine is filled with x. */
  method FillRight(rightmin: ISlot, x: ISlot?, ghost l: Spine, ghost r: Spine, ghost hdr: ISlot, ghost nul: ISlot)
    requires rightmin == Tip(r, hdr) && SpineNodes(l) !! SpineNodes(r)
    requires SpineShape(l, true, hdr, nul, Hole(l, true, hdr)) && SpineShape(r, false, hdr, nul, Hole(r, false, hdr))
    modifies rightmin`i_lln
    ensures SpineShape(l, true, hdr, nul, Hole(l, true, hdr)) && SpineShape(r, false, hdr, nul, x)
  {
    ghost var h, h' := Hole(r, false, hdr), Hole(l, true, hdr);
    ghost var was := map z | z in SpineNodes(l) + SpineNodes(r) :: Read(z);
    TopIn(r, h);
    SpineNodesExist(l);
    SpineNodesExist(r);
    rightmin.i_lln := x;
    forall z | z in SpineNodes(r) ensures Read(z) == SpineCell(r, false, nul, x, z) {
      assert was[z] == SpineCell(r, false, nul, h, z);
    }
    forall z | z in SpineNodes(l) ensures Read(z) == SpineCell(l, true, nul, h', z) {
      assert was[z] == SpineCell(l, true, nul, h', z);
    }
  }

  /** The root of t, with its far subtree, becomes the tip of the spine. */
  lemma Hang(s: Spine, d: bool, t: Tree, hdr: ISlot, nul: ISlot)
    requires t.Node? && Shape(t, nul) && hdr !in Nodes(t) && SpineNodes(s) !! Nodes(t)
    requires SpineShape(s, d, hdr, nul, t.it.node)
    ensures var s' := Hook(t.it, if d then t.l else t.r, s);
      SpineShape(s', d, hdr, nul, Hole(s', d, hdr)) && SpineNodes(s') <= SpineNodes(s) + Nodes(t)
    ensures var u := if d then t.r else t.l; Shape(u, nul) && SpineNodes(Hook(t.it, if d then t.l else t.r, s)) !! Nodes(u)
  {
    var s', u := Hook(t.it, if d then t.l else t.r, s), if d then t.r else t.l;
    forall z | z in SpineNodes(s') ensures Read(z) == SpineCell(s', d, nul, Hole(s', d, hdr), z) {
      if z in SpineNodes(s) {
        assert Read(z) == SpineCell(s, d, nul, t.it.node, z);
      } else {
        assert Read(z) == CellOf(t, nul, z);
      }
    }
    forall z | z in Nodes(u) ensures Read(z) == CellOf(u, nul, z) {
      assert Read(z) == CellOf(t, nul, z);
    }
  }

  /** The root goes onto the right spine, and the walk continues with its left child. */
  method LinkRight(x: ISlot, rightmin: ISlot, ghost l: Spine, ghost t: Tree, ghost r: Spine, ghost hdr: ISlot, ghost nul: ISlot)
    returns (x': ISlot, rightmin': ISlot)
    requires Splaying(l, t, r, hdr, nul) && x == t.it.node && rightmin == Tip(r, hdr) && t.l.Node?
    modifies rightmin`i_lln
    ensures Splaying(l, t.l, Hook(t.it, t.r, r), hdr, nul) && x' == t.l.it.node && rightmin' == x
  {
    NodesExist(t);
    FillRight(rightmin, x, l, r, hdr, nul);
    Hang(r, false, t, hdr, nul);
    rightmin' := x;
    assert Read(x) == CellOf(t, nul, x);
    x' := x.i_lln;
  }

  /** The root goes onto the left spine, and the walk continues with its right child. */
  method LinkLeft(x: ISlot, leftmax: ISlot, ghost l: Spine, ghost t: Tree, ghost r: Spine, ghost hdr: ISlot, ghost nul: ISlot)
    returns (x': ISlot, leftmax': ISlot)
    requires Splaying(l, t, r, hdr, nul) && x == t.it.node && leftmax == Tip(l, hdr) && t.r.Node?
    modifies leftmax`i_rln
    ensures Splaying(Hook(t.it, t.l, l), t.r, r, hdr, nul) && x' == t.r.it.node && leftmax' == x
  {
    NodesExist(t);
    FillLeft(leftmax, x, l, r, hdr, nul);
    Hang(l, true, t, hdr, nul);
    leftmax' := x;
    assert Read(x) == CellOf(t, nul, x);
    x' := x.i_rln;
  }

  /** The keys during a splay: those that have been passed are on their side of ino. */
  ghost predicate Around(l: Spine, t: Tree, r: Spine, ino: int, items: seq<Item>) {
    && SpineItems(l, true) + Items(t) + SpineItems(r, false) == items
    && AllBelow(SpineItems(l, true), ino) && AllAbove(SpineItems(r, false), ino) && Sorted(Items(t))
  }

  lemma AroundRotated(l: Spine, t: Tree, r: Spine, ino: int, items: seq<Item>, d: bool)
    requires t.Node? && (if d then t.l.Node? else t.r.Node?) && Around(l, t, r, ino, items)
    ensures Around(l, Rotated(t, d), r, ino, items)
  {
    RotatedSays(t, d);
  }

  lemma AroundLinked(l: Spine, t: Tree, r: Spine, ino: int, items: seq<Item>)
    requires t.Node? && Around(l, t, r, ino, items)
    ensures ino < t.it.ino ==> Around(l, t.l, Hook(t.it, t.r, r), ino, items)
    ensures t.it.ino < ino ==> Around(Hook(t.it, t.l, l), t.r, r, ino, items)
  {
    var a, b, x, c, e := SpineItems(l, true), Items(t.l), t.it, Items(t.r), SpineItems(r, false);
    SortedParts(b, x, c);
    Spread(a, b, x, c, e);
    if ino < x.ino {
      AboveMore(x, c, e, ino);
    } else if x.ino < ino {
      BelowMore(a, b, x, ino);
    }
  }

  lemma Spread(a: seq<Item>, b: seq<Item>, x: Item, c: seq<Item>, e: seq<Item>)
    ensures a + (b + [x] + c) + e == a + b + ([x] + c + e)
    ensures a + (b + [x] + c) + e == (a + b + [x]) + c + e
    ensures a + (b + [x] + c) + e == (a + b) + [x] + (c + e)
  {
  }

  lemma AboveMore(x: Item, c: seq<Item>, e: seq<Item>, ino: int)
    requires ino < x.ino && AllAbove(c, x.ino) && AllAbove(e, ino)
    ensures AllAbove([x] + c + e, ino)
  {
  }

  lemma BelowMore(a: seq<Item>, b: seq<Item>, x: Item, ino: int)
    requires x.ino < ino && AllBelow(b, x.ino) && AllBelow(a, ino)
    ensures AllBelow(a + b + [x], ino)
  {
  }

  /** The end of isplay: the spines take the subtrees of x in, and become its subtrees. */
  method Join(x: ISlot, leftmax: ISlot, rightmin: ISlot, hdr: ISlot, ghost l: Spine, ghost t: Tree, ghost r: Spine, ghost nul: ISlot)
    returns (ghost u: Tree)
    requires Splaying(l, t, r, hdr, nul) && x == t.it.node && leftmax == Tip(l, hdr) && rightmin == Tip(r, hdr)
    modifies leftmax`i_rln, rightmin`i_lln, x`i_lln, x`i_rln
    ensures u == Node(Rebuilt(l, true, t.l), t.it, Rebuilt(r, false, t.r)) && Shape(u, nul)
  {
    u := Node(Rebuilt(l, true, t.l), t.it, Rebuilt(r, false, t.r));
    assert Read(x) == CellOf(t, nul, x);
    NodesExist(t);
    FillLeft(leftmax, x.i_lln, l, r, hdr, nul);
    FillRight(rightmin, x.i_rln, l, r, hdr, nul);
    Halves(t, nul);
    x.i_lln := hdr.i_rln;
    x.i_rln := hdr.i_lln;
    Assemble(l, true, t.l, hdr, nul);
    Assemble(r, false, t.r, hdr, nul);
    RebuiltNodes(l, true, t.l);
    RebuiltNodes(r, false, t.r);
    Whole(u, nul);
  }

  lemma Halves(t: Tree, nul: ISlot)
    requires t.Node? && Shape(t, nul)
    ensures Shape(t.l, nul) && Shape(t.r, nul)
  {
    forall z | z in Nodes(t) ensures Read(z) == CellOf(t, nul, z) {
    }
    forall z | z in Nodes(t.l) ensures Read(z) == CellOf(t.l, nul, z) {
      assert Read(z) == CellOf(t, nul, z);
    }
    forall z | z in Nodes(t.r) ensures Read(z) == CellOf(t.r, nul, z) {
      assert Read(z) == CellOf(t, nul, z);
    }
  }

  lemma Whole(u: Tree, nul: ISlot)
    requires u.Node? && Shape(u.l, nul) && Shape(u.r, nul) && Nodes(u.l) !! Nodes(u.r)
    requires u.it.node !in Nodes(u.l) && u.it.node !in Nodes(u.r) && u.it.node != nul
    requires Read(u.it.node) == Cell(Root(u.l, nul), Root(u.r, nul), u.it.ino, u.it.name)
    ensures Shape(u, nul)
  {
    forall z | z in Nodes(u) ensures Read(z) == CellOf(u, nul, z) {
      if z in Nodes(u.l) {
        assert Read(z) == CellOf(u.l, nul, z);
      } else if z in Nodes(u.r) {
        assert Read(z) == CellOf(u.r, nul, z);
      }
    }
  }

  /** Three parts of a tree, and where the pointers of isplay are in them. */
  ghost predicate At(x: ISlot, leftmax: ISlot, rightmin: ISlot, l: Spine, t: Tree, r: Spine, hdr: ISlot, nul: ISlot, t0: Tree, ino: int)
    reads hdr, SpineNodes(l), Nodes(t), SpineNodes(r)
  {
    && Splaying(l, t, r, hdr, nul) && x == t.it.node && leftmax == Tip(l, hdr) && rightmin == Tip(r, hdr)
    && Around(l, t, r, ino, Items(t0)) && SpineNodes(l) + Nodes(t) + SpineNodes(r) == Nodes(t0)
  }

  /** The keys that isplay compares. The sentinel answers with the key itself. */
  lemma Keys(t: Tree, nul: ISlot, x: ISlot)
    requires t.Node? && Shape(t, nul) && x == t.it.node
    ensures x.i_ino == t.it.ino && x.i_lln == Root(t.l, nul) && x.i_rln == Root(t.r, nul)
    ensures t.l.Node? ==> x.i_lln != nul && t.l.it.node.i_ino == t.l.it.ino
    ensures t.r.Node? ==> x.i_rln != nul && t.r.it.node.i_ino == t.r.it.ino
  {
    assert Read(x) == CellOf(t, nul, x);
    if t.l.Node? {
      assert Read(t.l.it.node) == CellOf(t, nul, t.l.it.node) == CellOf(t.l, nul, t.l.it.node);
    }
    if t.r.Node? {
      assert Read(t.r.it.node) == CellOf(t, nul, t.r.it.node) == CellOf(t.r, nul, t.r.it.node);
    }
  }

  /** The rotation in the loop, where the child on the side of the key has a child there too. */
  method TiltRight(x: ISlot, ghost leftmax: ISlot, ghost rightmin: ISlot, ghost l: Spine, ghost t: Tree, ghost r: Spine,
                   ghost hdr: ISlot, ghost nul: ISlot, ghost whole: Tree, ghost ino: int) returns (y: ISlot)
    requires At(x, leftmax, rightmin, l, t, r, hdr, nul, whole, ino) && t.l.Node?
    modifies Nodes(t)`i_lln, Nodes(t)`i_rln
    ensures At(y, leftmax, rightmin, l, Rotated(t, true), r, hdr, nul, whole, ino)
  {
    AroundRotated(l, t, r, ino, Items(whole), true);
    RotatedSays(t, true);
    NodesExist(t);
    SpineNodesExist(l);
    SpineNodesExist(r);
    hide Around, Items, Size;
    y := RotateRight(x, t, nul);
  }

  /** The step down to the child on the side of the key. */
  method PassRight(x: ISlot, leftmax: ISlot, rightmin: ISlot, ghost l: Spine, ghost t: Tree, ghost r: Spine,
                   ghost hdr: ISlot, ghost nul: ISlot, ghost whole: Tree, ghost ino: int) returns (y: ISlot, tip: ISlot)
    requires At(x, leftmax, rightmin, l, t, r, hdr, nul, whole, ino) && t.l.Node? && ino < t.it.ino
    modifies rightmin`i_lln
    ensures At(y, leftmax, tip, l, t.l, Hook(t.it, t.r, r), hdr, nul, whole, ino)
  {
    AroundLinked(l, t, r, ino, Items(whole));
    hide Around, Items, Size;
    y, tip := LinkRight(x, rightmin, l, t, r, hdr, nul);
  }

  /** The rotation in the loop, where the child on the side of the key has a child there too. */
  method TiltLeft(x: ISlot, ghost leftmax: ISlot, ghost rightmin: ISlot, ghost l: Spine, ghost t: Tree, ghost r: Spine,
                   ghost hdr: ISlot, ghost nul: ISlot, ghost whole: Tree, ghost ino: int) returns (y: ISlot)
    requires At(x, leftmax, rightmin, l, t, r, hdr, nul, whole, ino) && t.r.Node?
    modifies Nodes(t)`i_lln, Nodes(t)`i_rln
    ensures At(y, leftmax, rightmin, l, Rotated(t, false), r, hdr, nul, whole, ino)
  {
    AroundRotated(l, t, r, ino, Items(whole), false);
    RotatedSays(t, false);
    NodesExist(t);
    SpineNodesExist(l);
    SpineNodesExist(r);
    hide Around, Items, Size;
    y := RotateLeft(x, t, nul);
  }

  /** The step down to the child on the side of the key. */
  method PassLeft(x: ISlot, leftmax: ISlot, rightmin: ISlot, ghost l: Spine, ghost t: Tree, ghost r: Spine,
                   ghost hdr: ISlot, ghost nul: ISlot, ghost whole: Tree, ghost ino: int) returns (y: ISlot, tip: ISlot)
    requires At(x, leftmax, rightmin, l, t, r, hdr, nul, whole, ino) && t.r.Node? && t.it.ino < ino
    modifies leftmax`i_rln
    ensures At(y, tip, rightmin, Hook(t.it, t.l, l), t.r, r, hdr, nul, whole, ino)
  {
    AroundLinked(l, t, r, ino, Items(whole));
    hide Around, Items, Size;
    y, tip := LinkLeft(x, leftmax, l, t, r, hdr, nul);
  }

  lemma AtSays(x: ISlot, leftmax: ISlot, rightmin: ISlot, l: Spine, t: Tree, r: Spine, hdr: ISlot, nul: ISlot, whole: Tree, ino: int)
    requires At(x, leftmax, rightmin, l, t, r, hdr, nul, whole, ino)
    ensures t.Node? && Shape(t, nul) && x == t.it.node && leftmax == Tip(l, hdr) && rightmin == Tip(r, hdr) && Sorted(Items(t))
    ensures SpineNodes(l) + Nodes(t) + SpineNodes(r) == Nodes(whole) && nul !in Nodes(whole) && hdr != nul
    ensures leftmax in {hdr} + Nodes(whole) && rightmin in {hdr} + Nodes(whole)
  {
  }

  /** The branch of the loop for a key to the left. */
  method GoLeft(x0: ISlot, leftmax: ISlot, rightmin0: ISlot, nul: ISlot, ino: nat,
                ghost l: Spine, ghost t0: Tree, ghost r0: Spine, ghost hdr: ISlot, ghost whole: Tree)
    returns (more: bool, x: ISlot, rightmin: ISlot, ghost t: Tree, ghost r: Spine)
    requires At(x0, leftmax, rightmin0, l, t0, r0, hdr, nul, whole, ino) && nul.i_ino == ino && ino < x0.i_ino
    modifies Nodes(t0)`i_lln, Nodes(t0)`i_rln, rightmin0`i_lln
    ensures At(x, leftmax, rightmin, l, t, r, hdr, nul, whole, ino)
    ensures if more then Size(t) < Size(t0) else ino < t.it.ino && t.l.Nil?
  {
    hide At, Shape, Sorted, Rotated;
    x, rightmin, t, r := x0, rightmin0, t0, r0;
    more := true;
    AtSays(x, leftmax, rightmin, l, t, r, hdr, nul, whole, ino);
    Keys(t, nul, x);
    if ino < x.i_lln.i_ino {
      SortedParts(Items(t.l), t.it, Items(t.r));
      RotatedSays(t, true);
      x := TiltRight(x, leftmax, rightmin, l, t, r, hdr, nul, whole, ino);
      t := Rotated(t, true);
      AtSays(x, leftmax, rightmin, l, t, r, hdr, nul, whole, ino);
      Keys(t, nul, x);
    }
    if x.i_lln == nul {
      more := false;
    } else {
      x, rightmin := PassRight(x, leftmax, rightmin, l, t, r, hdr, nul, whole, ino);
      t, r := t.l, Hook(t.it, t.r, r);
    }
  }

  /** The branch of the loop for a key to the right. */
  method GoRight(x0: ISlot, leftmax0: ISlot, rightmin: ISlot, nul: ISlot, ino: nat,
                 ghost l0: Spine, ghost t0: Tree, ghost r: Spine, ghost hdr: ISlot, ghost whole: Tree)
    returns (more: bool, x: ISlot, leftmax: ISlot, ghost l: Spine, ghost t: Tree)
    requires At(x0, leftmax0, rightmin, l0, t0, r, hdr, nul, whole, ino) && nul.i_ino == ino && x0.i_ino < ino
    modifies Nodes(t0)`i_lln, Nodes(t0)`i_rln, leftmax0`i_rln
    ensures At(x, leftmax, rightmin, l, t, r, hdr, nul, whole, ino)
    ensures if more then Size(t) < Size(t0) else t.it.ino < ino && t.r.Nil?
  {
    hide At, Shape, Sorted, Rotated;
    x, leftmax, l, t := x0, leftmax0, l0, t0;
    more := true;
    AtSays(x, leftmax, rightmin, l, t, r, hdr, nul, whole, ino);
    Keys(t, nul, x);
    if ino > x.i_rln.i_ino {
      SortedParts(Items(t.l), t.it, Items(t.r));
      RotatedSays(t, false);
      x := TiltLeft(x, leftmax, rightmin, l, t, r, hdr, nul, whole, ino);
      t := Rotated(t, false);
      AtSays(x, leftmax, rightmin, l, t, r, hdr, nul, whole, ino);
      Keys(t, nul, x);
    }
    if x.i_rln == nul {
      more := false;
    } else {
      x, leftmax := PassLeft(x, leftmax, rightmin, l, t, r, hdr, nul, whole, ino);
      l, t := Hook(t.it, t.l, l), t.r;
    }
  }

  lemma Started(x: ISlot, t: Tree, hdr: ISlot, nul: ISlot, ino: int)
    requires t.Node? && Shape(t, nul) && x == t.it.node && Sorted(Items(t)) && hdr != nul && hdr !in Nodes(t)
    ensures At(x, hdr, hdr, Bare, t, Bare, hdr, nul, t, ino)
  {
    assert [] + Items(t) + [] == Items(t);
  }

  /** The tree that isplay leaves, in terms of the three parts. */
  lemma Finished(l: Spine, t: Tree, r: Spine, ino: int, whole: Tree)
    requires t.Node? && Around(l, t, r, ino, Items(whole)) && SpineNodes(l) + Nodes(t) + SpineNodes(r) == Nodes(whole)
    requires t.it.ino == ino || (ino < t.it.ino && t.l.Nil?) || (t.it.ino < ino && t.r.Nil?)
    ensures var u := Node(Rebuilt(l, true, t.l), t.it, Rebuilt(r, false, t.r));
      Items(u) == Items(whole) && Nodes(u) == Nodes(whole) && Splits(u, ino)
  {
    var u := Node(Rebuilt(l, true, t.l), t.it, Rebuilt(r, false, t.r));
    RebuiltItems(l, true, t.l);
    RebuiltItems(r, false, t.r);
    RebuiltNodes(l, true, t.l);
    RebuiltNodes(r, false, t.r);
    Spread(SpineItems(l, true), Items(t.l), t.it, Items(t.r), SpineItems(r, false));
    assert ino < t.it.ino ==> Items(u.l) == SpineItems(l, true);
    assert t.it.ino < ino ==> Items(u.r) == SpineItems(r, false);
  }

  /** The loop of isplay. */
  method Descend(ino: nat, x0: ISlot, hdr: ISlot, nul: ISlot, ghost whole: Tree)
    returns (x: ISlot, leftmax: ISlot, rightmin: ISlot, ghost l: Spine, ghost t: Tree, ghost r: Spine)
    requires At(x0, hdr, hdr, Bare, whole, Bare, hdr, nul, whole, ino) && nul.i_ino == ino
    modifies Nodes(whole)`i_lln, Nodes(whole)`i_rln, hdr`i_lln, hdr`i_rln
    ensures At(x, leftmax, rightmin, l, t, r, hdr, nul, whole, ino)
    ensures t.Node? && (t.it.ino == ino || (ino < t.it.ino && t.l.Nil?) || (t.it.ino < ino && t.r.Nil?))
  {
    hide At, Shape, Sorted;
    leftmax, rightmin := hdr, hdr;
    x := x0;
    l, t, r := Bare, whole, Bare;
    AtSays(x, leftmax, rightmin, l, t, r, hdr, nul, whole, ino);
    Keys(t, nul, x);
    while ino != x.i_ino
      invariant At(x, leftmax, rightmin, l, t, r, hdr, nul, whole, ino) && nul.i_ino == ino
      invariant t.Node? && x.i_ino == t.it.ino
      decreases Size(t)
    {
      AtSays(x, leftmax, rightmin, l, t, r, hdr, nul, whole, ino);
      var more;
      if ino < x.i_ino {
        more, x, rightmin, t, r := GoLeft(x, leftmax, rightmin, nul, ino, l, t, r, hdr, whole);
      } else {
        more, x, leftmax, l, t := GoRight(x, leftmax, rightmin, nul, ino, l, t, r, hdr, whole);
      }
      AtSays(x, leftmax, rightmin, l, t, r, hdr, nul, whole, ino);
      if !more {
        break;
      }
      Keys(t, nul, x);
    }
  }

  lemma AtParts(x: ISlot, leftmax: ISlot, rightmin: ISlot, l: Spine, t: Tree, r: Spine, hdr: ISlot, nul: ISlot, whole: Tree, ino: int)
    requires At(x, leftmax, rightmin, l, t, r, hdr, nul, whole, ino)
    ensures Splaying(l, t, r, hdr, nul) && Around(l, t, r, ino, Items(whole))
  {
  }

  /** isplay: the items stay the same from left to right, and the key comes to the root, or else a
      root that splits the others around the key. Of the sentinel only the key changes, and it
      never keeps the key that was asked for. */
  method Isplay(ino: nat, x0: ISlot, nul: ISlot, ghost t0: Tree) returns (x: ISlot, ghost u: Tree)
    requires t0.Node? && Shape(t0, nul) && x0 == t0.it.node && Sorted(Items(t0))
    modifies Nodes(t0)`i_lln, Nodes(t0)`i_rln, nul`i_ino
    ensures u.Node? && x == u.it.node && Shape(u, nul) && Nodes(u) == Nodes(t0)
    ensures Items(u) == Items(t0) && Splits(u, ino) && nul.i_ino != ino
  {
    NodesExist(t0);
    var hdr := new ISlot("", 0);
    hdr.i_lln, hdr.i_rln := nul, nul;
    nul.i_ino := ino;
    Started(x0, t0, hdr, nul, ino);
    hide *;
    var leftmax, rightmin;
    ghost var l, t, r;
    x, leftmax, rightmin, l, t, r := Descend(ino, x0, hdr, nul, t0);
    AtSays(x, leftmax, rightmin, l, t, r, hdr, nul, t0, ino);
    AtParts(x, leftmax, rightmin, l, t, r, hdr, nul, t0, ino);
    Finished(l, t, r, ino, t0);
    u := Join(x, leftmax, rightmin, hdr, l, t, r, nul);
    NodesExist(u);
    nul.i_ino := if ino == 0 then 1 else 0;
  }

  ghost predicate HasKey(items: seq<Item>, ino: int) {
    exists j :: 0 <= j < |items| && items[j].ino == ino
  }

  /** After a splay the root tells whether the key is in the tree. */
  lemma RootTells(u: Tree, ino: int)
    requires u.Node? && Sorted(Items(u)) && Splits(u, ino)
    ensures u.it.ino == ino <==> HasKey(Items(u), ino)
    ensures forall j :: 0 <= j < |Items(u)| && Items(u)[j].ino == ino ==> Items(u)[j] == u.it
  {
    var s, t := Items(u.l), Items(u.r);
    SortedParts(s, u.it, t);
    assert Items(u)[|s|] == u.it;
    forall j | 0 <= j < |Items(u)| ensures Items(u)[j].ino == ino ==> j == |s| {
      if j < |s| {
        assert Items(u)[j] == s[j];
      } else if j > |s| {
        assert Items(u)[j] == t[j - |s| - 1];
      }
    }
  }

  /** ifind: the splayed tree, and its root if that has the key. A null tree has no sentinel. */
  method Ifind(ino: nat, it: ISlot?, nul: ISlot, ghost t: Tree) returns (it': ISlot?, found: ISlot?, ghost u: Tree)
    requires Shape(t, nul) && Sorted(Items(t)) && (if t.Nil? then it == null else it == t.it.node)
    modifies Nodes(t)`i_lln, Nodes(t)`i_rln, nul`i_ino
    ensures Shape(u, nul) && Items(u) == Items(t) && Nodes(u) == Nodes(t) && (if u.Nil? then it' == null else it' == u.it.node)
    ensures u.Node? ==> Splits(u, ino)
    ensures found != null <==> HasKey(Items(t), ino)
    ensures found != null ==> u.Node? && found == u.it.node && u.it in Items(t) && u.it.ino == ino
  {
    it', found, u := it, null, t;
    if it == null {
      return;
    }
    it', u := Isplay(ino, it, nul, t);
    RootTells(u, ino);
    assert Read(it') == CellOf(u, nul, it');
    if it'.i_ino == ino {
      found := it';
    }
  }

  /** What iput makes of a tree. */
  ghost function Put(t: Tree, ik: Item): Tree {
    if t.Nil? then Node(Nil, ik, Nil)
    else if ik.ino < t.it.ino then Node(t.l, ik, Node(Nil, t.it, t.r))
    else if t.it.ino < ik.ino then Node(Node(t.l, t.it, Nil), ik, t.r)
    else t
  }

  /** The items of a tree before and after, cut where the new one goes. */
  lemma PutItems(t: Tree, ik: Item)
    requires t.Node? && ik.ino != t.it.ino
    ensures Items(Put(t, ik)) == if ik.ino < t.it.ino then Items(t.l) + [ik] + ([t.it] + Items(t.r)) else (Items(t.l) + [t.it]) + [ik] + Items(t.r)
  {
    if ik.ino < t.it.ino {
      assert Items(Node(Nil, t.it, t.r)) == [t.it] + Items(t.r);
    } else {
      assert Items(Node(t.l, t.it, Nil)) == Items(t.l) + [t.it];
    }
  }

  lemma PrependSorted(x: Item, s: seq<Item>)
    ensures Sorted([x] + s) <==> Sorted(s) && AllAbove(s, x.ino)
  {
    SortedParts([], x, s);
    assert [] + [x] + s == [x] + s;
  }

  lemma AppendSorted(s: seq<Item>, x: Item)
    ensures Sorted(s + [x]) <==> Sorted(s) && AllBelow(s, x.ino)
  {
    SortedParts(s, x, []);
    assert s + [x] + [] == s + [x];
  }

  /** iput is right only because a splay came first: it keeps the order exactly when the root
      splits the rest around the new key. */
  lemma PutNeedsSplay(t: Tree, ik: Item)
    requires t.Node? && Sorted(Items(t)) && ik.ino != t.it.ino
    ensures Sorted(Items(Put(t, ik))) <==> Splits(t, ik.ino)
  {
    PutItems(t, ik);
    var a, x, c := Items(t.l), t.it, Items(t.r);
    SortedParts(a, x, c);
    if ik.ino < x.ino {
      SortedParts(a, ik, [x] + c);
      PrependSorted(x, c);
      assert AllAbove(c, ik.ino) && AllAbove([x] + c, ik.ino);
    } else {
      SortedParts(a + [x], ik, c);
      AppendSorted(a, x);
      assert AllBelow(a, ik.ino) && AllBelow(a + [x], ik.ino);
    }
  }

  /** The links that iput sets. */
  lemma PutCell(t: Tree, ik: Item, nul: ISlot, z: ISlot)
    requires t.Node? && ik.ino != t.it.ino && Distinct(t) && ik.node !in Nodes(t)
    ensures var u := Put(t, ik); Distinct(u) && Nodes(u) == Nodes(t) + {ik.node}
    ensures z in Nodes(t) && z != t.it.node ==> CellOf(Put(t, ik), nul, z) == CellOf(t, nul, z)
    ensures z == t.it.node ==>
      CellOf(Put(t, ik), nul, z) == CellOf(t, nul, z).(lln := if ik.ino < t.it.ino then nul else Root(t.l, nul), rln := if ik.ino < t.it.ino then Root(t.r, nul) else nul)
    ensures CellOf(Put(t, ik), nul, ik.node) ==
      if ik.ino < t.it.ino then Cell(Root(t.l, nul), t.it.node, ik.ino, ik.name) else Cell(t.it.node, Root(t.r, nul), ik.ino, ik.name)
  {
    var u := Put(t, ik);
    if ik.ino < t.it.ino {
      assert Distinct(u.r);
    } else {
      assert Distinct(u.l);
    }
  }

  /** iput */
  method Iput(ik: ISlot, it: ISlot?, nul: ISlot, ghost t: Tree) returns (it': ISlot, ghost u: Tree)
    requires Shape(t, nul) && ik !in Nodes(t) && ik != nul && (if t.Nil? then it == null else it == t.it.node)
    modifies ik`i_lln, ik`i_rln, Nodes(t)`i_lln, Nodes(t)`i_rln
    ensures u == Put(t, Item(ik, ik.i_ino, ik.i_name)) && Shape(u, nul) && it' == u.it.node
    ensures Nodes(u) == if t.Node? && t.it.ino == ik.i_ino then Nodes(t) else Nodes(t) + {ik}
  {
    u := Put(t, Item(ik, ik.i_ino, ik.i_name));
    if it == null {
      ik.i_lln, ik.i_rln := nul, nul;
      it' := ik;
    } else {
      ghost var was := map z | z in Nodes(t) :: Read(z);
      assert Read(it) == CellOf(t, nul, it);
      it' := it;
      if ik.i_ino < it.i_ino {
        ik.i_lln := it.i_lln;
        ik.i_rln := it;
        it.i_lln := nul;
        it' := ik;
      } else if it.i_ino < ik.i_ino {
        ik.i_rln := it.i_rln;
        ik.i_lln := it;
        it.i_rln := nul;
        it' := ik;
      }
      if ik.i_ino != it.i_ino {
        PutCell(t, Item(ik, ik.i_ino, ik.i_name), nul, ik);
        forall z | z in Nodes(u) ensures Read(z) == CellOf(u, nul, z) {
          if z != ik {
            PutCell(t, Item(ik, ik.i_ino, ik.i_name), nul, z);
            assert was[z] == CellOf(t, nul, z);
          }
        }
      }
    }
  }
}
