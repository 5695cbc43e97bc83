/** src/bin/cp/cp.c: the table of files that have been copied, by device and inode. */
module CpLinks {
  import opened SlotTree
  import opened CpSplay

  /** struct dslot */
  class DSlot {
    var d_nxt: DSlot?
    var d_isl: ISlot?
    const d_dev: nat

    constructor (dev: nat)
      ensures d_nxt == null && d_isl == null && d_dev == dev
    {
      d_nxt, d_isl, d_dev := null, null, dev;
    }
  }

  type Known = map<(nat, nat), string>

  ghost function AllNodes(trees: seq<Tree>): set<ISlot> {
    set i, x | 0 <= i < |trees| && x in Nodes(trees[i]) :: x
  }

  /** The list of device slots from d0 on. */
  ghost predicate Listed(d0: DSlot?, slots: seq<DSlot>)
    reads slots`d_nxt
  {
    && d0 == (if slots == [] then null else slots[0])
    && (forall i {:trigger slots[i].d_nxt} :: 0 <= i < |slots| ==> slots[i].d_nxt == if i + 1 < |slots| then slots[i + 1] else null)
    && (forall i, j :: 0 <= i < j < |slots| ==> slots[i].d_dev != slots[j].d_dev)
  }

  /** Every device slot has its tree; the trees share the sentinel only. */
  ghost predicate Planted(slots: seq<DSlot>, trees: seq<Tree>, nul: ISlot)
    reads slots`d_isl, AllNodes(trees)
  {
    && |trees| == |slots|
    && (forall i {:trigger trees[i]} :: 0 <= i < |trees| ==>
      && slots[i].d_isl == (if trees[i].Nil? then null else trees[i].it.node) && Sorted(Items(trees[i]))
      && assert forall x :: x in Nodes(trees[i]) ==> x in AllNodes(trees);
      Shape(trees[i], nul))
    && (forall i, j :: 0 <= i < j < |trees| ==> Nodes(trees[i]) !! Nodes(trees[j]))
  }

  /** The items are exactly the entries of the table for one device. */
  ghost predicate TreeKnows(dev: nat, items: seq<Item>, known: Known) {
    && (forall ino: nat {:trigger (dev, ino)} :: (dev, ino) in known <==> HasKey(items, ino))
    && (forall x {:trigger x in items} :: x in items ==> (dev, x.ino) in known && known[(dev, x.ino)] == x.name)
  }

  ghost predicate HasDevice(slots: seq<DSlot>, dev: nat) {
    exists i :: 0 <= i < |slots| && slots[i].d_dev == dev
  }

  /** The trees know exactly the pairs of known, with their paths. */
  ghost predicate Knows(slots: seq<DSlot>, trees: seq<Tree>, known: Known) {
    && |trees| == |slots|
    && (forall i {:trigger trees[i]} :: 0 <= i < |trees| ==> TreeKnows(slots[i].d_dev, Items(trees[i]), known))
    && (forall k {:trigger k in known} :: k in known ==> HasDevice(slots, k.0))
  }

  lemma MoreTrees(trees: seq<Tree>)
    ensures AllNodes(trees + [Nil]) == AllNodes(trees)
  {
    forall x | x in AllNodes(trees) ensures x in AllNodes(trees + [Nil]) {
      var i :| 0 <= i < |trees| && x in Nodes(trees[i]);
      assert x in Nodes((trees + [Nil])[i]);
    }
  }

  lemma Within(trees: seq<Tree>, i: nat)
    requires i < |trees|
    ensures Nodes(trees[i]) <= AllNodes(trees)
    ensures forall t :: AllNodes(trees[i := t]) <= AllNodes(trees) + Nodes(t)
  {
  }

  lemma AllNodesExist(trees: seq<Tree>)
    ensures forall x :: x in AllNodes(trees) ==> allocated(x)
  {
    forall x | x in AllNodes(trees) ensures allocated(x) {
      var i :| 0 <= i < |trees| && x in Nodes(trees[i]);
      NodesExist(trees[i]);
    }
  }

  /** What Planted says of one tree. */
  lemma PlantedAt(slots: seq<DSlot>, trees: seq<Tree>, nul: ISlot, i: nat)
    requires Planted(slots, trees, nul) && i < |trees|
    ensures |trees| == |slots| && Shape(trees[i], nul) && Sorted(Items(trees[i])) && nul !in Nodes(trees[i])
    ensures slots[i].d_isl == if trees[i].Nil? then null else trees[i].it.node
    ensures forall k :: 0 <= k < |trees| && k != i ==> Nodes(trees[k]) !! Nodes(trees[i])
  {
  }

  /** One tree is replaced. */
  lemma Replant(slots: seq<DSlot>, trees: seq<Tree>, nul: ISlot, i: nat, u: Tree)
    requires |trees| == |slots| && i < |trees| && Shape(u, nul) && Sorted(Items(u))
    requires slots[i].d_isl == if u.Nil? then null else u.it.node
    requires forall k {:trigger trees[k]} :: 0 <= k < |trees| && k != i ==>
      Shape(trees[k], nul) && Sorted(Items(trees[k])) && slots[k].d_isl == (if trees[k].Nil? then null else trees[k].it.node) && Nodes(trees[k]) !! Nodes(u)
    requires forall j, k :: 0 <= j < k < |trees| ==> Nodes(trees[j]) !! Nodes(trees[k])
    ensures Planted(slots, trees[i := u], nul)
  {
    Within(trees[i := u], i);
  }

  lemma RootName(u: Tree, nul: ISlot)
    requires u.Node? && Shape(u, nul)
    ensures u.it.node.i_name == u.it.name
  {
    assert Read(u.it.node) == CellOf(u, nul, u.it.node);
  }

  lemma PlantedSorted(slots: seq<DSlot>, trees: seq<Tree>, nul: ISlot, i: nat)
    requires Planted(slots, trees, nul) && i < |trees|
    ensures Sorted(Items(trees[i]))
  {
  }

  lemma PlantedApart(slots: seq<DSlot>, trees: seq<Tree>, nul: ISlot)
    requires Planted(slots, trees, nul)
    ensures forall j, k :: 0 <= j < k < |trees| ==> Nodes(trees[j]) !! Nodes(trees[k])
  {
  }

  lemma KnowsSame(slots: seq<DSlot>, trees: seq<Tree>, known: Known, i: nat, u: Tree)
    requires Knows(slots, trees, known) && i < |trees| && Items(u) == Items(trees[i])
    ensures Knows(slots, trees[i := u], known)
  {
    var trees' := trees[i := u];
    assert forall k :: 0 <= k < |trees| ==> Items(trees'[k]) == Items(trees[k]);
  }

  lemma KnowsAt(slots: seq<DSlot>, trees: seq<Tree>, known: Known, i: nat, ino: nat)
    requires Knows(slots, trees, known) && i < |trees|
    ensures (slots[i].d_dev, ino) in known <==> HasKey(Items(trees[i]), ino)
    ensures forall it :: it in Items(trees[i]) && it.ino == ino ==> (slots[i].d_dev, ino) in known && known[(slots[i].d_dev, ino)] == it.name
  {
  }

  /** ifind on one of the trees. */
  method FindIn(ds: DSlot, ino: nat, nul: ISlot, ghost slots: seq<DSlot>, ghost trees: seq<Tree>, ghost i: nat)
    returns (ip: ISlot?, ghost u: Tree)
    requires Planted(slots, trees, nul) && i < |trees| && ds == slots[i]
    requires forall j, k :: 0 <= j < k < |slots| ==> slots[j] != slots[k] && slots[j].d_dev != slots[k].d_dev
    modifies ds`d_isl, Nodes(trees[i])`i_lln, Nodes(trees[i])`i_rln, nul`i_ino
    ensures Planted(slots, trees[i := u], nul) && Items(u) == Items(trees[i]) && Nodes(u) == Nodes(trees[i])
    ensures u.Node? ==> Splits(u, ino)
    ensures ip != null <==> HasKey(Items(trees[i]), ino)
    ensures ip != null ==> u.Node? && ip == u.it.node && u.it in Items(trees[i]) && u.it.ino == ino
  {
    ghost var t := trees[i];
    AllNodesExist(trees);
    PlantedAt(slots, trees, nul, i);
    PlantedApart(slots, trees, nul);
    forall k | 0 <= k < |trees| && k != i ensures Shape(trees[k], nul) && nul !in Nodes(trees[k]) && Nodes(trees[k]) <= AllNodes(trees) {
      PlantedAt(slots, trees, nul, k);
      Within(trees, k);
    }
    hide Shape, Sorted, Splits, HasKey;
    var it;
    it, ip, u := Ifind(ino, ds.d_isl, nul, t);
    forall k | 0 <= k < |trees| && k != i ensures Shape(trees[k], nul) {
      assert old(Shape(trees[k], nul));
      assert Nodes(trees[k]) !! Nodes(t);
      assert forall x :: x in Nodes(trees[k]) ==> x in AllNodes(trees);
    }
    ds.d_isl := it;
    Replant(slots, trees, nul, i, u);
  }

  /** The loop of canlink over the device slots. */
  method FindDevice(d0: DSlot?, ghost slots: seq<DSlot>, dev: nat) returns (ds: DSlot?, dp: DSlot?, ghost i: nat)
    requires Listed(d0, slots)
    ensures i <= |slots| && ds == (if i < |slots| then slots[i] else null) && (i < |slots| ==> slots[i].d_dev == dev)
    ensures dp == if i == 0 then null else slots[i - 1]
    ensures i == |slots| ==> forall k :: 0 <= k < |slots| ==> slots[k].d_dev != dev
  {
    ds, dp := d0, null;
    i := 0;
    while ds != null
      invariant i <= |slots| && ds == (if i < |slots| then slots[i] else null)
      invariant dp == if i == 0 then null else slots[i - 1]
      invariant forall k :: 0 <= k < i ==> slots[k].d_dev != dev
      decreases |slots| - i
    {
      if ds.d_dev == dev {
        return;
      }
      dp, ds := ds, ds.d_nxt;
      i := i + 1;
    }
  }

  lemma PlantNil(slots: seq<DSlot>, trees: seq<Tree>, nul: ISlot, ds: DSlot)
    requires Planted(slots, trees, nul) && ds.d_isl == null
    ensures Planted(slots + [ds], trees + [Nil], nul)
  {
    MoreTrees(trees);
    forall k | 0 <= k < |trees| ensures Shape(trees[k], nul) {
      PlantedAt(slots, trees, nul, k);
    }
    assert forall k :: 0 <= k < |trees| ==> (trees + [Nil])[k] == trees[k];
  }

  lemma KnowsNil(slots: seq<DSlot>, trees: seq<Tree>, known: Known, ds: DSlot)
    requires Knows(slots, trees, known) && forall k :: 0 <= k < |slots| ==> slots[k].d_dev != ds.d_dev
    ensures Knows(slots + [ds], trees + [Nil], known)
  {
    var slots', trees' := slots + [ds], trees + [Nil];
    assert TreeKnows(ds.d_dev, [], known);
    hide TreeKnows, HasKey;
    forall k | 0 <= k < |trees'| ensures TreeKnows(slots'[k].d_dev, Items(trees'[k]), known) {
      if k < |trees| {
        assert TreeKnows(slots[k].d_dev, Items(trees[k]), known);
      }
    }
    forall k | k in known ensures HasDevice(slots', k.0) {
      var i :| 0 <= i < |slots| && slots[i].d_dev == k.0;
      assert slots'[i].d_dev == k.0;
    }
  }

  /** iput on one of the trees, right after a search that failed. */
  method PutIn(ds: DSlot, ik: ISlot, nul: ISlot, ghost slots: seq<DSlot>, ghost trees: seq<Tree>, ghost i: nat)
    returns (ghost u: Tree)
    requires Planted(slots, trees, nul) && i < |trees| && ds == slots[i]
    requires forall j, k :: 0 <= j < k < |slots| ==> slots[j] != slots[k] && slots[j].d_dev != slots[k].d_dev
    requires ik !in AllNodes(trees) && ik != nul && !HasKey(Items(trees[i]), ik.i_ino)
    requires trees[i].Node? ==> Splits(trees[i], ik.i_ino)
    modifies ds`d_isl, ik`i_lln, ik`i_rln, Nodes(trees[i])`i_lln, Nodes(trees[i])`i_rln
    ensures u == Put(trees[i], Item(ik, ik.i_ino, ik.i_name)) && Planted(slots, trees[i := u], nul)
    ensures Nodes(u) <= Nodes(trees[i]) + {ik}
  {
    hide Shape, Sorted, Splits, HasKey, Put, Planted, Nodes, Items;
    ghost var t := trees[i];
    AllNodesExist(trees);
    PlantedAt(slots, trees, nul, i);
    PlantedApart(slots, trees, nul);
    PutSorted(t, Item(ik, ik.i_ino, ik.i_name));
    Within(trees, i);
    forall k | 0 <= k < |trees| && k != i
      ensures Shape(trees[k], nul) && Sorted(Items(trees[k])) && Nodes(trees[k]) <= AllNodes(trees)
      ensures slots[k].d_isl == (if trees[k].Nil? then null else trees[k].it.node) && slots[k] != ds
    {
      PlantedAt(slots, trees, nul, k);
      Within(trees, k);
    }
    var it;
    it, u := Iput(ik, ds.d_isl, nul, t);
    forall k | 0 <= k < |trees| && k != i ensures Shape(trees[k], nul) && Nodes(trees[k]) !! Nodes(u) {
      assert old(Shape(trees[k], nul));
      assert Nodes(trees[k]) !! Nodes(t);
      assert forall x :: x in Nodes(trees[k]) ==> x in AllNodes(trees);
    }
    ds.d_isl := it;
    Replant(slots, trees, nul, i, u);
  }

  lemma PutSorted(t: Tree, ik: Item)
    requires Sorted(Items(t)) && !HasKey(Items(t), ik.ino) && (t.Node? ==> Splits(t, ik.ino))
    ensures var u := Put(t, ik); u.Node? && Sorted(Items(u))
    ensures forall x :: x in Items(Put(t, ik)) <==> x in Items(t) || x == ik
  {
    if t.Node? {
      assert Items(t)[|Items(t.l)|] == t.it;
      PutNeedsSplay(t, ik);
      PutItems(t, ik);
    } else {
      assert Items(Put(t, ik)) == [ik];
    }
  }

  /** One more entry for a device, and what that is to the other devices. */
  lemma TreeKnowsMore(dev: nat, items: seq<Item>, known: Known, ik: Item, items': seq<Item>)
    requires TreeKnows(dev, items, known) && !HasKey(items, ik.ino) && forall x :: x in items' <==> x in items || x == ik
    ensures TreeKnows(dev, items', known[(dev, ik.ino) := ik.name])
  {
    var known' := known[(dev, ik.ino) := ik.name];
    forall ino: nat ensures (dev, ino) in known' <==> HasKey(items', ino) {
      if HasKey(items, ino) {
        var j :| 0 <= j < |items| && items[j].ino == ino;
        assert items[j] in items';
      }
      if HasKey(items', ino) {
        var j :| 0 <= j < |items'| && items'[j].ino == ino;
        assert items'[j] in items';
      }
      assert ik in items';
    }
    forall x | x in items' ensures (dev, x.ino) in known' && known'[(dev, x.ino)] == x.name {
      if x != ik {
        var j :| 0 <= j < |items| && items[j] == x;
        assert HasKey(items, x.ino);
      }
    }
  }

  lemma TreeKnowsOther(dev: nat, items: seq<Item>, known: Known, dev': nat, ino: nat, name: string)
    requires TreeKnows(dev, items, known) && dev != dev'
    ensures TreeKnows(dev, items, known[(dev', ino) := name])
  {
  }

  /** The table with one more pair. */
  lemma KnowsPut(slots: seq<DSlot>, trees: seq<Tree>, known: Known, i: nat, u: Tree, ik: Item)
    requires Knows(slots, trees, known) && i < |trees| && !HasKey(Items(trees[i]), ik.ino)
    requires forall j, k :: 0 <= j < k < |slots| ==> slots[j].d_dev != slots[k].d_dev
    requires forall x :: x in Items(u) <==> x in Items(trees[i]) || x == ik
    ensures Knows(slots, trees[i := u], known[(slots[i].d_dev, ik.ino) := ik.name])
  {
    hide TreeKnows, HasKey;
    var trees', dev := trees[i := u], slots[i].d_dev;
    var known' := known[(dev, ik.ino) := ik.name];
    forall k | 0 <= k < |trees'| ensures TreeKnows(slots[k].d_dev, Items(trees'[k]), known') {
      if k == i {
        TreeKnowsMore(dev, Items(trees[i]), known, ik, Items(u));
      } else {
        assert slots[k].d_dev != dev;
        TreeKnowsOther(slots[k].d_dev, Items(trees[k]), known, dev, ik.ino, ik.name);
      }
    }
  }

  lemma SlotsApart(d0: DSlot?, slots: seq<DSlot>)
    requires Listed(d0, slots)
    ensures forall j, k :: 0 <= j < k < |slots| ==> slots[j] != slots[k] && slots[j].d_dev != slots[k].d_dev
  {
  }

  class Links {
    var d0: DSlot?
    const inull: ISlot
    ghost var slots: seq<DSlot>
    ghost var trees: seq<Tree>
    ghost var known: Known

    ghost predicate Valid()
      reads this, slots, AllNodes(trees), inull
    {
      Listed(d0, slots) && Planted(slots, trees, inull) && Knows(slots, trees, known) && inull.i_lln == inull.i_rln == inull
    }

    constructor ()
      ensures Valid() && known == map[] && slots == [] && trees == [] && fresh(inull)
    {
      var nul := new ISlot("", 0);
      nul.i_lln, nul.i_rln := nul, nul;
      inull := nul;
      d0, slots, trees, known := null, [], [], map[];
    }

    /** The search for the device in canlink; a device that is new gets a slot at the end. */
    method DeviceSlot(dev: nat) returns (ds: DSlot, ghost i: nat)
      requires Valid()
      modifies this`d0, this`slots, this`trees, slots`d_nxt
      ensures Valid() && i < |slots| && slots[i] == ds && ds.d_dev == dev
      ensures old(slots) <= slots && AllNodes(trees) == AllNodes(old(trees))
      ensures forall k {:trigger slots[k]} :: 0 <= k < |slots| ==> slots[k] in old(slots) || fresh(slots[k])
    {
      AllNodesExist(trees);
      hide Planted, Knows, AllNodes;
      var x, dp;
      x, dp, i := FindDevice(d0, slots, dev);
      if x == null {
        ds := new DSlot(dev);
        KnowsNil(slots, trees, known, ds);
        PlantNil(slots, trees, inull, ds);
        if d0 == null {
          d0 := ds;
        } else {
          dp.d_nxt := ds;
        }
        MoreTrees(trees);
        slots, trees := slots + [ds], trees + [Nil];
      } else {
        ds := x;
      }
    }

    lemma ValidParts()
      ensures Valid() <==> Listed(d0, slots) && Planted(slots, trees, inull) && Knows(slots, trees, known) && inull.i_lln == inull.i_rln == inull
      ensures Valid() ==> |trees| == |slots|
    {
    }

    /** The search in one tree; whatever it does to the tree, the table stays the same. */
    method Find(ds: DSlot, ino: nat, ghost i: nat) returns (ip: ISlot?)
      requires Valid() && i < |slots| && slots[i] == ds
      modifies ds`d_isl, this`trees, AllNodes(trees)`i_lln, AllNodes(trees)`i_rln, inull`i_ino
      ensures Valid() && AllNodes(trees) <= AllNodes(old(trees))
      ensures ip != null <==> (ds.d_dev, ino) in known
      ensures ip != null ==> ip.i_name == known[(ds.d_dev, ino)]
      ensures (ip == null <==> !HasKey(Items(trees[i]), ino)) && (trees[i].Node? ==> Splits(trees[i], ino))
    {
      ghost var t := trees[i];
      Within(trees, i);
      AllNodesExist(trees);
      KnowsAt(slots, trees, known, i, ino);
      SlotsApart(d0, slots);
      ValidParts();
      hide *;
      ghost var u;
      ip, u := FindIn(ds, ino, inull, slots, trees, i);
      KnowsSame(slots, trees, known, i, u);
      ghost var was := trees;
      trees := trees[i := u];
      if ip != null {
        PlantedAt(slots, trees, inull, i);
        RootName(u, inull);
      }
      ValidParts();
    }

    /** A new entry, right after the search that did not find it. */
    method Put(ds: DSlot, path: string, ino: nat, ghost i: nat)
      requires Valid() && i < |slots| && slots[i] == ds
      requires !HasKey(Items(trees[i]), ino) && (trees[i].Node? ==> Splits(trees[i], ino))
      modifies ds`d_isl, this`trees, this`known, AllNodes(trees)`i_lln, AllNodes(trees)`i_rln
      ensures Valid() && known == old(known)[(ds.d_dev, ino) := path]
      ensures forall x :: x in AllNodes(trees) ==> x in AllNodes(old(trees)) || fresh(x)
    {
      AllNodesExist(trees);
      Within(trees, i);
      PlantedSorted(slots, trees, inull, i);
      SlotsApart(d0, slots);
      ValidParts();
      hide *;
      var ip := new ISlot(path, ino);
      ghost var u := PutIn(ds, ip, inull, slots, trees, i);
      PutSorted(trees[i], Item(ip, ino, path));
      KnowsPut(slots, trees, known, i, u, Item(ip, ino, path));
      trees := trees[i := u];
      known := known[(ds.d_dev, ino) := path];
      ValidParts();
    }

    /** canlink, where linked is what link(2) would say. A file is linked exactly when its device
        and inode were seen before, and then to the first path that was recorded for them; a link
        that fails is not recorded again. */
    method Canlink(path: string, dev: nat, ino: nat, linked: bool) returns (r: bool, call: LinkCall)
      requires Valid()
      modifies this`d0, this`slots, this`trees, this`known, slots`d_nxt, slots`d_isl
      modifies AllNodes(trees)`i_lln, AllNodes(trees)`i_rln, inull`i_ino
      ensures Valid() && known == Recorded(old(known), File(dev, ino, path))
      ensures call == if (dev, ino) in old(known) then Link(old(known)[(dev, ino)], path) else NoLink
      ensures r == (call.Link? && linked)
      ensures (forall x :: x in AllNodes(trees) ==> x in AllNodes(old(trees)) || fresh(x))
      ensures forall k {:trigger slots[k]} :: 0 <= k < |slots| ==> slots[k] in old(slots) || fresh(slots[k])
    {
      hide Valid;
      var ds;
      ghost var i;
      ds, i := DeviceSlot(dev);
      var ip := Find(ds, ino, i);
      call := NoLink;
      r := false;
      if ip == null {
        Put(ds, path, ino, i);
      } else {
        call := Link(ip.i_name, path);
        r := linked;
      }
    }
  }

  /** The call of link(2), if there is one. */
  datatype LinkCall = NoLink | Link(from: string, path: string)

  /** What stat(2) says of one file that is to be copied. */
  datatype File = File(dev: nat, ino: nat, path: string)

  ghost function Recorded(known: Known, f: File): Known {
    if (f.dev, f.ino) in known then known else known[(f.dev, f.ino) := f.path]
  }

  /** The table after a run of calls, from an empty one. */
  ghost function AfterAll(fs: seq<File>): Known {
    if fs == [] then map[] else Recorded(AfterAll(fs[..|fs| - 1]), fs[|fs| - 1])
  }

  /** f is the first file of the run with its device and inode. */
  ghost predicate First(fs: seq<File>, i: nat)
    requires i < |fs|
  {
    forall j :: 0 <= j < i ==> (fs[j].dev, fs[j].ino) != (fs[i].dev, fs[i].ino)
  }

  /** After any run of calls, a pair is known exactly when a file had it, with the first path. */
  lemma {:induction false} FirstPath(fs: seq<File>, dev: nat, ino: nat)
    ensures (dev, ino) in AfterAll(fs) <==> exists i :: 0 <= i < |fs| && (fs[i].dev, fs[i].ino) == (dev, ino)
    ensures forall i :: 0 <= i < |fs| && (fs[i].dev, fs[i].ino) == (dev, ino) && First(fs, i) ==> AfterAll(fs)[(dev, ino)] == fs[i].path
  {
    if fs != [] {
      var n := |fs| - 1;
      FirstPath(fs[..n], dev, ino);
      forall i | 0 <= i < |fs| && (fs[i].dev, fs[i].ino) == (dev, ino) && First(fs, i) ensures AfterAll(fs)[(dev, ino)] == fs[i].path {
        if i < n {
          assert fs[..n][i] == fs[i] && First(fs[..n], i);
        } else {
          assert (dev, ino) !in AfterAll(fs[..n]);
        }
      }
    }
  }

  /** What a pair is linked to when the file at i comes: the path of the first file before it with the
      same device and inode. */
  ghost predicate CallFor(fs: seq<File>, i: nat, call: LinkCall)
    requires i < |fs|
  {
    if forall j :: 0 <= j < i ==> (fs[j].dev, fs[j].ino) != (fs[i].dev, fs[i].ino) then call == NoLink
    else (call.Link? && call.path == fs[i].path &&
          exists j :: 0 <= j < i && First(fs, j) && (fs[j].dev, fs[j].ino) == (fs[i].dev, fs[i].ino) && call.from == fs[j].path)
  }

  lemma {:induction false} FirstOf(fs: seq<File>, i: nat, n: nat) returns (j: nat)
    requires i < n <= |fs|
    ensures j < n && First(fs, j) && (fs[j].dev, fs[j].ino) == (fs[i].dev, fs[i].ino)
  {
    j := 0;
    while (fs[j].dev, fs[j].ino) != (fs[i].dev, fs[i].ino)
      invariant j <= i && forall k :: 0 <= k < j ==> (fs[k].dev, fs[k].ino) != (fs[i].dev, fs[i].ino)
      decreases i - j
    {
      j := j + 1;
    }
  }

  lemma CallIs(fs: seq<File>, i: nat, call: LinkCall)
    requires i < |fs| && var known, f := AfterAll(fs[..i]), fs[i];
      call == if (f.dev, f.ino) in known then Link(known[(f.dev, f.ino)], f.path) else NoLink
    ensures CallFor(fs, i, call)
  {
    var f, before := fs[i], fs[..i];
    FirstPath(before, f.dev, f.ino);
    if k :| 0 <= k < i && (fs[k].dev, fs[k].ino) == (f.dev, f.ino) {
      assert before[k] == fs[k];
      var j := FirstOf(fs, k, i);
      assert before[j] == fs[j] && First(before, j);
    }
  }

  lemma AfterOne(fs: seq<File>, i: nat)
    requires i < |fs|
    ensures AfterAll(fs[..i + 1]) == Recorded(AfterAll(fs[..i]), fs[i])
  {
    assert fs[..i + 1][..i] == fs[..i];
  }

  /** A run of calls, for the files in turn. */
  method LinkAll(fs: seq<File>, linked: seq<bool>) returns (calls: seq<LinkCall>)
    requires |linked| == |fs|
    ensures |calls| == |fs| && forall i {:trigger calls[i]} :: 0 <= i < |fs| ==> CallFor(fs, i, calls[i])
  {
    var table := new Links();
    calls := [];
    assert fs[..0] == [] && AllNodes([]) == {};
    for n := 0 to |fs|
      invariant table.Valid() && fresh(table) && fresh(table.inull) && table.known == AfterAll(fs[..n])
      invariant forall x :: x in AllNodes(table.trees) ==> fresh(x)
      invariant forall k {:trigger table.slots[k]} :: 0 <= k < |table.slots| ==> fresh(table.slots[k])
      invariant |calls| == n && forall i {:trigger calls[i]} :: 0 <= i < n ==> CallFor(fs, i, calls[i])
    {
      hide *;
      AfterOne(fs, n);
      var r, call := table.Canlink(fs[n].path, fs[n].dev, fs[n].ino, linked[n]);
      CallIs(fs, n, call);
      calls := calls + [call];
    }
  }
}
