/** src/bin/cp/cp.c: the trees of inode slots, as values, and the heap that they describe. */
module SlotTree {

  /** struct islot */
  class ISlot {
    var i_lln: ISlot?
    var i_rln: ISlot?
    var i_name: string
    var i_ino: nat

    constructor (name: string, ino: nat)
      ensures i_lln == null && i_rln == null && i_name == name && i_ino == ino
    {
      i_lln, i_rln, i_name, i_ino := null, null, name, ino;
    }
  }

  datatype Item = Item(node: ISlot, ino: nat, name: string)

  datatype Tree = Nil | Node(l: Tree, it: Item, r: Tree)

  /** One side of a splay: the items that have been passed, the last one outermost. Each carries a
      subtree on its far side, and the next one, or the hole, on its near side. */
  datatype Spine = Bare | Hook(it: Item, sub: Tree, up: Spine)

  ghost function Nodes(t: Tree): set<ISlot> {
    if t.Nil? then {} else {t.it.node} + Nodes(t.l) + Nodes(t.r)
  }

  ghost function SpineNodes(s: Spine): set<ISlot> {
    if s.Bare? then {} else {s.it.node} + Nodes(s.sub) + SpineNodes(s.up)
  }

  /** The items from left to right. */
  ghost function Items(t: Tree): seq<Item> {
    if t.Nil? then [] else Items(t.l) + [t.it] + Items(t.r)
  }

  ghost function Size(t: Tree): nat {
    if t.Nil? then 0 else Size(t.l) + 1 + Size(t.r)
  }

  /** The items of a spine on the left (d) or on the right. */
  ghost function SpineItems(s: Spine, d: bool): seq<Item> {
    if s.Bare? then []
    else if d then SpineItems(s.up, d) + Items(s.sub) + [s.it]
    else [s.it] + Items(s.sub) + SpineItems(s.up, d)
  }

  /** What an item and its subtree make of a near subtree. */
  ghost function Joint(s: Spine, d: bool, t: Tree): Tree
    requires s.Hook?
  {
    if d then Node(s.sub, s.it, t) else Node(t, s.it, s.sub)
  }

  /** The tree that comes about when t fills the hole. */
  ghost function Rebuilt(s: Spine, d: bool, t: Tree): Tree {
    if s.Bare? then t else Rebuilt(s.up, d, Joint(s, d, t))
  }

  lemma {:induction false} RebuiltItems(s: Spine, d: bool, t: Tree)
    ensures Items(Rebuilt(s, d, t)) == if d then SpineItems(s, d) + Items(t) else Items(t) + SpineItems(s, d)
  {
    if s.Hook? {
      RebuiltItems(s.up, d, Joint(s, d, t));
      if d {
        Regroup(SpineItems(s.up, d), Items(s.sub), [s.it], Items(t));
      } else {
        Regroup(Items(t), [s.it], Items(s.sub), SpineItems(s.up, d));
      }
    }
  }

  lemma Regroup(a: seq<Item>, b: seq<Item>, c: seq<Item>, e: seq<Item>)
    ensures a + (b + c + e) == (a + b + c) + e
    ensures (a + b + c) + e == a + (b + c + e)
    ensures (a + b + c) + e == a + (b + (c + e))
  {
  }

  lemma {:induction false} RebuiltNodes(s: Spine, d: bool, t: Tree)
    ensures Nodes(Rebuilt(s, d, t)) == SpineNodes(s) + Nodes(t)
  {
    if s.Hook? {
      RebuiltNodes(s.up, d, Joint(s, d, t));
    }
  }

  // Order.

  ghost predicate Sorted(items: seq<Item>) {
    forall i, j :: 0 <= i < j < |items| ==> items[i].ino < items[j].ino
  }

  ghost predicate AllBelow(items: seq<Item>, ino: int) {
    forall i {:trigger items[i]} :: 0 <= i < |items| ==> items[i].ino < ino
  }

  ghost predicate AllAbove(items: seq<Item>, ino: int) {
    forall i {:trigger items[i]} :: 0 <= i < |items| ==> items[i].ino > ino
  }

  lemma SortedParts(s: seq<Item>, x: Item, t: seq<Item>)
    ensures Sorted(s + [x] + t) <==> Sorted(s) && Sorted(t) && AllBelow(s, x.ino) && AllAbove(t, x.ino)
  {
    var u := s + [x] + t;
    if Sorted(u) {
      forall i, j | 0 <= i < j < |s| ensures s[i].ino < s[j].ino { assert u[i] == s[i] && u[j] == s[j]; }
      forall i, j | 0 <= i < j < |t| ensures t[i].ino < t[j].ino { assert u[|s| + 1 + i] == t[i] && u[|s| + 1 + j] == t[j]; }
      forall i | 0 <= i < |s| ensures s[i].ino < x.ino { assert u[i] == s[i] && u[|s|] == x; }
      forall i | 0 <= i < |t| ensures t[i].ino > x.ino { assert u[|s| + 1 + i] == t[i] && u[|s|] == x; }
    }
    if Sorted(s) && Sorted(t) && AllBelow(s, x.ino) && AllAbove(t, x.ino) {
      forall i, j | 0 <= i < j < |u| ensures u[i].ino < u[j].ino {
        assert u[i] == if i < |s| then s[i] else if i == |s| then x else t[i - |s| - 1];
        assert u[j] == if j < |s| then s[j] else if j == |s| then x else t[j - |s| - 1];
      }
    }
  }

  /** The key is at the root, or the root splits the rest around it: what lies between the root
      and the key is missing. */
  ghost predicate Splits(t: Tree, ino: int) {
    t.Node? && (t.it.ino < ino ==> AllAbove(Items(t.r), ino)) && (t.it.ino > ino ==> AllBelow(Items(t.l), ino))
  }

  // The heap.

  datatype Cell = Cell(lln: ISlot?, rln: ISlot?, ino: nat, name: string)

  ghost function Read(x: ISlot): Cell
    reads x
  {
    Cell(x.i_lln, x.i_rln, x.i_ino, x.i_name)
  }

  ghost function Root(t: Tree, nul: ISlot): ISlot {
    if t.Nil? then nul else t.it.node
  }

  ghost predicate Distinct(t: Tree) {
    t.Node? ==>
      && t.it.node !in Nodes(t.l) && t.it.node !in Nodes(t.r) && Nodes(t.l) !! Nodes(t.r)
      && Distinct(t.l) && Distinct(t.r)
  }

  ghost predicate DistinctSpine(s: Spine) {
    s.Hook? ==>
      && s.it.node !in Nodes(s.sub) && s.it.node !in SpineNodes(s.up) && Nodes(s.sub) !! SpineNodes(s.up)
      && Distinct(s.sub) && DistinctSpine(s.up)
  }

  /** What the node x of t should hold. */
  ghost function CellOf(t: Tree, nul: ISlot, x: ISlot): Cell
    requires x in Nodes(t)
  {
    if x == t.it.node then Cell(Root(t.l, nul), Root(t.r, nul), t.it.ino, t.it.name)
    else if x in Nodes(t.l) then CellOf(t.l, nul, x)
    else CellOf(t.r, nul, x)
  }

  /** What the node x of the spine should hold, when hole is in the hole. */
  ghost function SpineCell(s: Spine, d: bool, nul: ISlot, hole: ISlot?, x: ISlot): Cell
    requires x in SpineNodes(s)
  {
    if x == s.it.node then
      Cell(if d then Root(s.sub, nul) else hole, if d then hole else Root(s.sub, nul), s.it.ino, s.it.name)
    else if x in Nodes(s.sub) then CellOf(s.sub, nul, x)
    else SpineCell(s.up, d, nul, s.it.node, x)
  }

  /** The heap holds the tree t; the sentinel stands for its missing children. */
  ghost predicate Shape(t: Tree, nul: ISlot)
    reads Nodes(t)
  {
    && Distinct(t) && nul !in Nodes(t)
    && forall x {:trigger Read(x)} {:trigger CellOf(t, nul, x)} :: x in Nodes(t) ==> Read(x) == CellOf(t, nul, x)
  }

  /** The node that was passed first. */
  ghost function TopOf(s: Spine, hole: ISlot?): ISlot? {
    if s.Bare? then hole else TopOf(s.up, s.it.node)
  }

  /** leftmax or rightmin */
  ghost function Tip(s: Spine, hdr: ISlot): ISlot {
    if s.Bare? then hdr else s.it.node
  }

  /** The heap holds the spine, which hangs from the header, with hole in the hole. */
  ghost predicate SpineShape(s: Spine, d: bool, hdr: ISlot, nul: ISlot, hole: ISlot?)
    reads hdr, SpineNodes(s)
  {
    && DistinctSpine(s) && hdr !in SpineNodes(s) && nul !in SpineNodes(s)
    && (if d then hdr.i_rln else hdr.i_lln) == TopOf(s, hole)
    && forall x {:trigger Read(x)} {:trigger SpineCell(s, d, nul, hole, x)} :: x in SpineNodes(s) ==> Read(x) == SpineCell(s, d, nul, hole, x)
  }

  lemma {:induction false} NodesExist(t: Tree)
    ensures forall x :: x in Nodes(t) ==> allocated(x)
  {
    if t.Node? {
      NodesExist(t.l);
      NodesExist(t.r);
    }
  }

  lemma {:induction false} SpineNodesExist(s: Spine)
    ensures forall x :: x in SpineNodes(s) ==> allocated(x)
  {
    if s.Hook? {
      NodesExist(s.sub);
      SpineNodesExist(s.up);
    }
  }

  lemma {:induction false} TopIn(s: Spine, hole: ISlot?)
    ensures s.Hook? ==> TopOf(s, hole) in SpineNodes(s)
    ensures s.Hook? ==> forall h :: TopOf(s, h) == TopOf(s, hole)
  {
    if s.Hook? && s.up.Hook? {
      TopIn(s.up, s.it.node);
    }
  }

  /** When t fills the hole, the whole is a tree again. */
  lemma {:induction false} Assemble(s: Spine, d: bool, t: Tree, hdr: ISlot, nul: ISlot)
    requires SpineShape(s, d, hdr, nul, Root(t, nul)) && Shape(t, nul) && SpineNodes(s) !! Nodes(t)
    ensures Shape(Rebuilt(s, d, t), nul)
    ensures (if d then hdr.i_rln else hdr.i_lln) == Root(Rebuilt(s, d, t), nul)
  {
    if s.Hook? {
      var u := Joint(s, d, t);
      forall x | x in Nodes(u) ensures Read(x) == CellOf(u, nul, x) {
        if x in Nodes(t) {
          assert Read(x) == CellOf(t, nul, x);
        } else {
          assert Read(x) == SpineCell(s, d, nul, Root(t, nul), x);
        }
      }
      forall x | x in SpineNodes(s.up) ensures Read(x) == SpineCell(s.up, d, nul, s.it.node, x) {
        assert Read(x) == SpineCell(s, d, nul, Root(t, nul), x);
      }
      Assemble(s.up, d, u, hdr, nul);
    }
  }
}
