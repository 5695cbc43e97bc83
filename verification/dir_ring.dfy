/** src/bin/csh/dir.c: the ring of directories, and the stack of directories that it stands for. */
module DirRing {
  import opened Seqs

  /** struct directory of dir.h */
  class Dir {
    var di_next: Dir?
    var di_prev: Dir?
    var di_count: int
    const di_name: string

    constructor (name: string)
      ensures di_next == null && di_prev == null && di_count == 0 && di_name == name
    {
      di_next, di_prev, di_count, di_name := null, null, 0, name;
    }
  }

  ghost predicate LinkAt(r: seq<Dir>, k: nat)
    requires k < |r|
    reads r`di_next, r`di_prev
  {
    var s := Succ(k, |r|);
    r[k].di_prev == r[s] && r[s].di_next == r[k]
  }

  /** A ring of records, along di_prev, linked both ways. */
  ghost predicate Looped(r: seq<Dir>)
    reads r`di_next, r`di_prev
  {
    r != [] && Distinct(r) && forall k {:trigger LinkAt(r, k)} :: 0 <= k < |r| ==> LinkAt(r, k)
  }

  function Pred(k: nat, n: nat): nat
    requires n > 0
  {
    if k == 0 then n - 1 else k - 1
  }

  /** Both links of one record. */
  lemma Links(r: seq<Dir>, k: nat)
    requires Looped(r) && k < |r|
    ensures r[k].di_prev == r[Succ(k, |r|)] && r[k].di_next == r[Pred(k, |r|)]
  {
    assert LinkAt(r, k);
    assert LinkAt(r, Pred(k, |r|));
  }

  ghost function Without(r: seq<Dir>, t: nat): seq<Dir>
    requires t < |r|
  {
    r[..t] + r[t + 1..]
  }

  lemma WithoutMembers(r: seq<Dir>, t: nat)
    requires t < |r| && Distinct(r)
    ensures Distinct(Without(r, t)) && forall d :: d in Without(r, t) <==> d in r && d != r[t]
  {
    assert r == r[..t] + [r[t]] + r[t + 1..];
  }

  lemma LoopedFirst(r: seq<Dir>)
    requires Looped(r)
    ensures r != [] && r[0] !in r[1..] && forall d :: d in r <==> d == r[0] || d in r[1..]
  {
  }

  lemma WithoutAt(r: seq<Dir>, t: nat, k: nat)
    requires t < |r| && k + 1 < |r|
    ensures var n, s := |r|, Without(r, t); var i, j := if k < t then k else k + 1, Succ(k, n - 1);
      |s| == n - 1 && s[k] == r[i] && s[j] == r[if j < t then j else j + 1]
      && (if i == Pred(t, n) then (if j < t then j else j + 1) == Succ(t, n) else (if j < t then j else j + 1) == Succ(i, n))
  {
  }

  /** The neighbours of dp are linked to one another. */
  method Unlink(dp: Dir, ghost r: seq<Dir>, ghost t: nat)
    requires Looped(r) && t < |r| && |r| >= 2 && dp == r[t]
    modifies r`di_next, r`di_prev
    ensures Looped(Without(r, t)) && dp.di_next == old(dp.di_next) && dp.di_prev == old(dp.di_prev)
  {
    ghost var n := |r|;
    ghost var a, b := Pred(t, n), Succ(t, n);
    WithoutMembers(r, t);
    Links(r, t);
    hide Distinct, Without;
    dp.di_prev.di_next := dp.di_next;
    dp.di_next.di_prev := dp.di_prev;
    ghost var s := Without(r, t);
    forall k | 0 <= k < n - 1 ensures |s| == n - 1 && LinkAt(s, k) {
      WithoutAt(r, t, k);
      var i := if k < t then k else k + 1;
      var j := if Succ(k, n - 1) < t then Succ(k, n - 1) else Succ(k, n - 1) + 1;
      assert old(LinkAt(r, i));
      Different(r, i, a);
      Different(r, j, b);
    }
  }

  /** x is linked in before the first record of the ring. */
  method PutFront(x: Dir, ghost r: seq<Dir>, first: Dir)
    requires Looped(r) && x !in r && first == r[0]
    modifies r`di_next, r`di_prev, x`di_next, x`di_prev
    ensures Looped([x] + r)
  {
    ghost var n := |r|;
    forall k | 0 <= k < n ensures r[k].di_prev == r[Succ(k, n)] && r[k].di_next == r[Pred(k, n)] {
      Links(r, k);
    }
    x.di_next := first.di_next;
    x.di_prev := first;
    first.di_next.di_prev := x;
    first.di_next := x;
    ghost var s := [x] + r;
    forall k | 0 <= k < n + 1 ensures LinkAt(s, k) {
      if k > 0 {
        Different(r, k - 1, n - 1);
        Different(r, Succ(k - 1, n), 0);
      }
    }
  }

  /** x takes the place of the first record of the ring. */
  method Replace(x: Dir, ghost r: seq<Dir>, first: Dir)
    requires Looped(r) && x !in r && first == r[0] && |r| >= 2
    modifies r`di_next, r`di_prev, x`di_next, x`di_prev
    ensures Looped([x] + r[1..])
  {
    ghost var n := |r|;
    forall k | 0 <= k < n ensures r[k].di_prev == r[Succ(k, n)] && r[k].di_next == r[Pred(k, n)] {
      Links(r, k);
    }
    x.di_next := first.di_next;
    x.di_prev := first.di_prev;
    x.di_prev.di_next := x;
    x.di_next.di_prev := x;
    ghost var s := [x] + r[1..];
    forall k | 0 <= k < n ensures LinkAt(s, k) {
      Different(r, k, n - 1);
      Different(r, Succ(k, n), 1);
    }
  }

  /** A ring has no first record. */
  lemma RotLooped(r: seq<Dir>, s: nat)
    requires Looped(r) && s < |r|
    ensures Looped(Rot(r, s))
  {
    var q := Rot(r, s);
    var n := |r|;
    forall i, j | 0 <= i < j < n ensures q[i] != q[j] {
      Different(r, if s + i < n then s + i else s + i - n, if s + j < n then s + j else s + j - n);
    }
    forall k | 0 <= k < n ensures LinkAt(q, k) {
      var i := if s + k < n then s + k else s + k - n;
      assert LinkAt(r, i);
      assert q[k] == r[i] && q[Succ(k, n)] == r[Succ(i, n)];
    }
  }

  /** The records other than the head. */
  ghost function Others(r: seq<Dir>, head: Dir): seq<Dir>
  {
    if r == [] then [] else (if r[0] == head then [] else [r[0]]) + Others(r[1..], head)
  }

  lemma OthersStep(r: seq<Dir>, head: Dir)
    requires r != []
    ensures Others(r, head) == (if r[0] == head then [] else [r[0]]) + Others(r[1..], head)
  {
  }

  lemma {:induction false} OthersJoin(a: seq<Dir>, b: seq<Dir>, head: Dir)
    ensures Others(a + b, head) == Others(a, head) + Others(b, head)
  {
    if a == [] {
      assert a + b == b;
    } else {
      hide Others;
      OthersStep(a, head);
      OthersStep(a + b, head);
      OthersJoin(a[1..], b, head);
      assert (a + b)[1..] == a[1..] + b;
      Assoc(if a[0] == head then [] else [a[0]], Others(a[1..], head), Others(b, head));
    }
  }

  lemma {:induction false} OthersSame(r: seq<Dir>, head: Dir)
    requires head !in r
    ensures Others(r, head) == r
  {
    if r != [] {
      OthersSame(r[1..], head);
    }
  }

  /** Where a record of the ring is in the stack. */
  lemma OthersAt(r: seq<Dir>, t: nat, head: Dir)
    requires t < |r|
    ensures Others(r, head) == Others(r[..t], head) + (if r[t] == head then [] else [r[t]]) + Others(r[t + 1..], head)
    ensures Others(r[..t + 1], head) == Others(r[..t], head) + (if r[t] == head then [] else [r[t]])
  {
    assert r == r[..t + 1] + r[t + 1..];
    assert r[..t + 1] == r[..t] + [r[t]];
    OthersJoin(r[..t + 1], r[t + 1..], head);
    OthersJoin(r[..t], [r[t]], head);
  }

  /** The stack of a turned ring, of a ring without one record, and of a ring with one more. */
  lemma OthersTurn(r: seq<Dir>, s: nat, head: Dir)
    requires s < |r|
    ensures var n := |Others(r[..s], head)|; n <= |Others(r, head)| && Others(Rot(r, s), head) == Others(r, head)[n..] + Others(r, head)[..n]
  {
    assert r == r[..s] + r[s..];
    OthersJoin(r[..s], r[s..], head);
    OthersJoin(r[s..], r[..s], head);
  }

  /** Without the record at t, the stack is without it too. */
  lemma OthersWithout(r: seq<Dir>, t: nat, head: Dir)
    requires t < |r| && r[t] != head
    ensures var s, n := Others(r, head), |Others(r[..t], head)|;
      n < |s| && s[n] == r[t] && Others(Without(r, t), head) == s[..n] + s[n + 1..]
  {
    hide Others;
    OthersAt(r, t, head);
    OthersJoin(r[..t], r[t + 1..], head);
  }

  /** All the records but one are in the stack. */
  lemma OthersCount(r: seq<Dir>, head: Dir)
    requires Distinct(r) && head in r
    ensures |Others(r, head)| == |r| - 1
  {
    var h :| 0 <= h < |r| && r[h] == head;
    hide Others;
    OthersAt(r, h, head);
    OthersSame(r[..h], head);
    OthersSame(r[h + 1..], head);
  }

  /** The stack of a ring without its first record, turned to what was at t. */
  lemma OthersLeft(r: seq<Dir>, t: nat, head: Dir)
    requires 0 < t < |r| && r[0] != head
    ensures var s, n := Others(r, head), |Others(r[..t], head)|;
      0 < n <= |s| && Others(Rot(Without(r, 0), t - 1), head) == s[n..] + s[1..n]
  {
    var s := Others(r, head);
    OthersWithout(r, 0, head);
    OthersTurn(Without(r, 0), t - 1, head);
    assert Without(r, 0)[..t - 1] == r[1..t];
    OthersStep(r[..t], head);
    assert r[..t][1..] == r[1..t];
    assert r[..0] == [];
    hide Others;
  }

  /** The argument of a command, and what becomes of the command. */
  datatype Arg = NoArg | Plus(n: nat) | Name

  datatype Followed = Nowhere | At(name: string)

  datatype Report = Done | NoDir | Deep | System | BadDir | Empty

  /** An argument that dfind knows. */
  predicate Numbered(arg: Arg) {
    arg.Plus? && arg.n > 0
  }

  /** The reference counts, when the ring gives up d: without references, d is freed. */
  ghost function Dropped(counts: map<Dir, int>, d: Dir): map<Dir, int>
    requires d in counts
  {
    if counts[d] == 0 then counts - {d} else counts
  }

  /** The head of the ring, the current directory and the records that are held. */
  class Dirs {
    const dhead: Dir
    var dcwd: Dir
    /** The ring along di_prev from dcwd on, and all the records that have not been freed. */
    ghost var ring: seq<Dir>
    ghost var held: set<Dir>

    /** What holds of the ring and of the records at any time; x is a record just taken off the ring. */
    ghost predicate Sound(x: Dir?)
      reads this`ring, this`held, ring, held
    {
      && Looped(ring) && dhead in ring && (x != null ==> x !in ring && x in held)
      && (forall d :: d in ring ==> d in held)
      && (forall d :: d in held && d !in ring && d != x ==> d.di_next == null && d.di_prev == null && d.di_count > 0)
      && (forall d :: d in held ==> d.di_count >= 0)
    }

    ghost predicate Valid()
      reads this, ring, held
    {
      Sound(null) && |ring| >= 2 && ring[0] == dcwd && dcwd != dhead
    }

    /** The directory stack. */
    ghost function Stack(): seq<Dir>
      reads this
    {
      Others(ring, dhead)
    }

    ghost function Counts(): map<Dir, int>
      reads this, held`di_count
    {
      map d | d in held :: d.di_count
    }

    /** dinit, once the name is known */
    constructor (name: string)
      ensures Valid() && fresh(held) && Stack() == [dcwd] && dcwd.di_name == name && Counts() == map[dhead := 0, dcwd := 0]
    {
      var head := new Dir("");
      var dp := new Dir(name);
      head.di_next, head.di_prev, dp.di_next, dp.di_prev := dp, dp, head, head;
      dhead, dcwd := head, dp;
      ring, held := [dp, head], {dp, head};
      new;
      assert LinkAt(ring, 0) && LinkAt(ring, 1);
      OthersStep(ring, dhead);
    }

    /** printdirs: the records it shows, in turn */
    method Printdirs() returns (shown: seq<Dir>)
      requires Valid()
      ensures shown == Stack()
    {
      var dp := dcwd;
      shown := [];
      ghost var k := 0;
      while true
        invariant 0 <= k < |ring| && dp == ring[k]
        invariant shown == Others(ring[..k], dhead)
        decreases |ring| - k
      {
        OthersAt(ring, k, dhead);
        Links(ring, k);
        if dp != dhead {
          shown := shown + [dp];
        }
        dp := dp.di_prev;
        k := k + 1;
        if dp == dcwd {
          break;
        }
      }
      assert ring[..k] == ring;
    }

    /** dfind, for the argument +n: the record n places down the stack. */
    method Dfind(n: nat) returns (dp: Dir?, deep: bool, ghost t: nat)
      requires Valid()
      ensures n == 0 ==> dp == null && !deep
      ensures n > 0 ==> (deep <==> n >= |Stack()|)
      ensures n > 0 && !deep ==> 0 < t < |ring| && dp == ring[t] && dp != dhead && n == |Others(ring[..t], dhead)|
    {
      dp, deep, t := null, false, 0;
      if n == 0 {
        return;
      }
      var d, i := dcwd, n;
      while i != 0
        invariant 0 <= i <= n && t < |ring| && d == ring[t] && d != dhead && n - i == |Others(ring[..t], dhead)|
        invariant i < n ==> t > 0 && n - i < |Stack()|
        decreases i
      {
        Links(ring, t);
        OthersAt(ring, t, dhead);
        d := d.di_prev;
        t := Succ(t, |ring|);
        if d == dhead {
          Links(ring, t);
          OthersAt(ring, t, dhead);
          d := d.di_prev;
          t := Succ(t, |ring|);
        }
        Different(ring, t, 0);
        if d == dcwd {
          return null, true, 0;
        }
        OthersAt(ring, t, dhead);
        i := i - 1;
      }
      dp := d;
    }

    /** Takes the record dp off the ring. */
    method Detach(dp: Dir, ghost t: nat)
      requires Sound(null) && t < |ring| && dp == ring[t] && |ring| >= 2 && dp != dhead
      modifies this`ring, ring`di_next, ring`di_prev
      ensures Sound(dp) && ring == Without(old(ring), t)
      ensures |ring| == |old(ring)| - 1 && (forall k :: 0 <= k < |ring| ==> ring[k] == old(ring)[if k < t then k else k + 1]) && forall d :: d in ring ==> d in old(ring)
    {
      WithoutMembers(ring, t);
      Unlink(dp, ring, t);
      ring := Without(ring, t);
    }

    /** A reference to d is gone; a record that is not on the ring goes with the last one. */
    method Release(d: Dir)
      requires Valid() && d in held && d.di_count > 0
      modifies this`held, d`di_count, d`di_next, d`di_prev
      ensures Valid()
      ensures var c := old(Counts())[d := old(d.di_count) - 1]; Counts() == if d in ring then c else Dropped(c, d)
      ensures held <= old(held)
    {
      hide Looped;
      OnRing(d);
      d.di_count := d.di_count - 1;
      if d.di_count == 0 {
        if d.di_next == null {
          Dfree(d);
        }
      }
    }

    lemma RingHeld()
      requires Valid()
      ensures (forall d :: d in ring ==> d in held) && dcwd in held
    {
    }

    lemma KeysHeld()
      ensures Counts().Keys == held
    {
    }

    lemma CwdHeld()
      requires Valid()
      ensures dcwd in held && dcwd in Counts() && Counts()[dcwd] == dcwd.di_count
    {
    }

    /** n more references to the current directory change nothing else. */
    twostate lemma Referred(n: nat)
      requires old(Valid()) && unchanged(this) && (forall d :: d in held ==> d.di_next == old(d.di_next) && d.di_prev == old(d.di_prev))
      requires forall d :: d in held ==> d.di_count == old(d.di_count) + if d == dcwd then n else 0
      ensures Valid() && dcwd in old(Counts()) && Counts() == old(Counts()[dcwd := dcwd.di_count + n])
    {
      hide LinkAt;
      assert forall k {:trigger LinkAt(ring, k)} :: 0 <= k < |ring| ==> old(LinkAt(ring, k));
      LinksKept();
    }

    twostate lemma LinksKept()
      requires old(Valid()) && unchanged(this) && (forall d :: d in held ==> d.di_next == old(d.di_next) && d.di_prev == old(d.di_prev))
      ensures Looped(ring)
    {
      forall k | 0 <= k < |ring| ensures LinkAt(ring, k) {
        assert old(LinkAt(ring, k));
        assert ring[k] in ring && ring[Succ(k, |ring|)] in ring;
      }
    }

    lemma OnRing(d: Dir)
      requires Valid() && d in held
      ensures d.di_next == null <==> d !in ring
    {
      if d in ring {
        var k :| 0 <= k < |ring| && ring[k] == d;
        Links(ring, k);
      }
    }

    /** Puts the record dp before the current one. */
    method Insert(dp: Dir)
      requires Sound(if dp in held then dp else null) && dp !in ring && ring != [] && ring[0] == dcwd && dp.di_count >= 0
      modifies this`ring, this`held, ring`di_next, ring`di_prev, dp`di_next, dp`di_prev
      ensures Sound(null) && ring == [dp] + old(ring) && held == old(held) + {dp}
    {
      PutFront(dp, ring, dcwd);
      ring, held := [dp] + ring, held + {dp};
    }

    /** Puts the record dp in the place of the current one. */
    method Take(dp: Dir)
      requires Valid() && dp !in held && dp.di_count == 0
      modifies this`ring, this`held, ring`di_next, ring`di_prev, dp`di_next, dp`di_prev
      ensures Sound(dcwd) && ring == [dp] + old(ring)[1..] && held == old(held) + {dp}
    {
      hide Looped;
      LoopedFirst(ring);
      Replace(dp, ring, dcwd);
      ring, held := [dp] + ring[1..], held + {dp};
    }

    ghost method Turn(s: nat, x: Dir?)
      requires Sound(x) && s < |ring|
      modifies this`ring
      ensures Sound(x) && ring == Rot(old(ring), s) && ring != [] && ring[0] == old(ring)[s]
    {
      RotLooped(ring, s);
      ring := Rot(ring, s);
    }

    /** dfree, for a record that the ring has given up */
    method Dfree(dp: Dir)
      requires Sound(dp)
      modifies this`held, dp`di_next, dp`di_prev
      ensures Sound(null) && Counts() == Dropped(old(Counts()), dp) && held <= old(held)
    {
      hide Looped;
      if dp.di_count != 0 {
        dp.di_next, dp.di_prev := null, null;
      } else {
        held := held - {dp};
      }
    }

    lemma IsValid()
      requires Sound(null) && ring != [] && ring[0] == dcwd && dcwd != dhead
      ensures Valid()
    {
    }

    /** The stack starts with the current directory. */
    lemma StackFirst()
      requires Valid()
      ensures Stack() != [] && Stack()[0] == dcwd && |Stack()| == |ring| - 1
    {
      OthersStep(ring, dhead);
      OthersCount(ring, dhead);
    }

    /** dochngd: ok tells if chdir to a record of the ring succeeds, and followed where a name leads. */
    method Dochngd(arg: Arg, ok: bool, followed: Followed) returns (r: Report)
      requires Valid()
      modifies this`dcwd, this`ring, this`held, ring`di_next, ring`di_prev
      ensures Valid() && old(Stack()) != []
      ensures r == if Numbered(arg) && arg.n >= |old(Stack())| then Deep
                   else if (if Numbered(arg) then !ok else followed.Nowhere?) then System else Done
      ensures r != Done ==> Stack() == old(Stack()) && Counts() == old(Counts())
      ensures r == Done && Numbered(arg) ==> Stack() == old(Stack())[arg.n..] + old(Stack())[1..arg.n] && Counts() == Dropped(old(Counts()), old(dcwd))
      ensures r == Done && !Numbered(arg) ==>
        && fresh(dcwd) && dcwd.di_name == followed.name && Stack() == [dcwd] + old(Stack())[1..]
        && Counts() == Dropped(old(Counts())[dcwd := 0], old(dcwd))
    {
      hide Sound, Others, Rot, Without;
      StackFirst();
      var dp: Dir?, deep := null, false;
      ghost var t := 0;
      if arg.Plus? {
        dp, deep, t := Dfind(arg.n);
        if deep {
          return Deep;
        }
      }
      if dp != null {
        if !ok {
          return System;
        }
        GoTo(dp, t);
        return Done;
      }
      if followed.Nowhere? {
        return System;
      }
      dp := new Dir(followed.name);
      Become(dp);
      return Done;
    }

    /** The current directory leaves the ring, for the record dp of the ring. */
    method GoTo(dp: Dir, ghost t: nat)
      requires Valid() && 0 < t < |ring| && dp == ring[t] && dp != dhead
      modifies this`dcwd, this`ring, this`held, ring`di_next, ring`di_prev
      ensures Valid() && dcwd == dp && Counts() == Dropped(old(Counts()), old(dcwd))
      ensures var s, n := old(Stack()), |Others(old(ring)[..t], dhead)|; 0 < n <= |s| && Stack() == s[n..] + s[1..n]
    {
      hide Sound, Others, Rot, Without;
      OthersLeft(ring, t, dhead);
      Detach(dcwd, 0);
      Turn(t - 1, dcwd);
      Dfree(dcwd);
      dcwd := dp;
      IsValid();
    }

    /** The record dp of the ring, next on the stack, goes before the current directory. */
    method Exchange(dp: Dir, ghost t: nat)
      requires Valid() && 0 < t < |ring| && dp == ring[t] && dp != dhead && |Others(ring[..t], dhead)| == 1
      modifies this`dcwd, this`ring, this`held, ring`di_next, ring`di_prev
      ensures Valid() && dcwd == dp && Counts() == old(Counts())
      ensures var s := old(Stack()); |s| > 1 && Stack() == [s[1], s[0]] + s[2..]
    {
      hide Sound, Others, Rot, Without;
      StackFirst();
      OthersWithout(ring, t, dhead);
      OthersStep([dp] + Without(ring, t), dhead);
      HeldAt(t);
      Detach(dp, t);
      Insert(dp);
      dcwd := dp;
    }

    lemma HeldAt(t: nat)
      requires Sound(null) && t < |ring|
      ensures ring[t] in held && ring[t].di_count >= 0
    {
    }

    /** The record dp of the ring becomes the current one where it is. */
    method Bring(dp: Dir, ghost t: nat)
      requires Valid() && t < |ring| && dp == ring[t] && dp != dhead
      modifies this`dcwd, this`ring
      ensures Valid() && dcwd == dp && Counts() == old(Counts())
      ensures var s, n := old(Stack()), |Others(old(ring)[..t], dhead)|; n <= |s| && Stack() == s[n..] + s[..n]
    {
      hide Sound, Others, Rot, Without;
      OthersTurn(ring, t, dhead);
      Turn(t, null);
      dcwd := dp;
      IsValid();
    }

    /** The new record dp goes before the current directory. */
    method Enter(dp: Dir)
      requires Valid() && dp !in held && dp.di_count == 0 && dp != dhead && dp !in ring
      modifies this`dcwd, this`ring, this`held, ring`di_next, ring`di_prev, dp`di_next, dp`di_prev
      ensures Valid() && dcwd == dp && Stack() == [dp] + old(Stack()) && Counts() == old(Counts())[dp := 0]
    {
      hide Sound, Others, Rot, Without;
      OthersStep([dp] + ring, dhead);
      Insert(dp);
      dcwd := dp;
    }

    /** A record that is not the current one leaves the ring. */
    method Discard(dp: Dir, ghost t: nat)
      requires Valid() && 0 < t < |ring| && dp == ring[t] && dp != dhead
      modifies this`ring, this`held, ring`di_next, ring`di_prev
      ensures Valid() && dp in old(held) && Counts() == Dropped(old(Counts()), dp)
      ensures var s, n := old(Stack()), |Others(old(ring)[..t], dhead)|; n < |s| && s[n] == dp && Stack() == s[..n] + s[n + 1..]
    {
      hide Sound, Others, Rot, Without;
      OthersWithout(ring, t, dhead);
      HeldAt(t);
      Detach(dp, t);
      Dfree(dp);
      IsValid();
    }

    /** The current directory leaves the ring, for the new record dp. */
    method Become(dp: Dir)
      requires Valid() && dp !in held && dp.di_count == 0 && dp != dhead
      modifies this`dcwd, this`ring, this`held, ring`di_next, ring`di_prev, dp`di_next, dp`di_prev
      ensures Valid() && dcwd == dp && Counts() == Dropped(old(Counts())[dp := 0], old(dcwd))
      ensures old(Stack()) != [] && Stack() == [dp] + old(Stack())[1..]
    {
      hide Sound, Others, Rot, Without;
      OthersStep(ring, dhead);
      OthersStep([dp] + ring[1..], dhead);
      Take(dp);
      Dfree(dcwd);
      dcwd := dp;
    }

    /** dopushd */
    method Dopushd(arg: Arg, ok: bool, followed: Followed) returns (r: Report)
      requires Valid()
      modifies this`dcwd, this`ring, this`held, ring`di_next, ring`di_prev
      ensures Valid() && old(Stack()) != []
      ensures r == if arg.NoArg? && |old(Stack())| == 1 then NoDir
                   else if Numbered(arg) && arg.n >= |old(Stack())| then Deep
                   else if (if arg.NoArg? || Numbered(arg) then !ok else followed.Nowhere?) then System else Done
      ensures r != Done ==> Stack() == old(Stack()) && Counts() == old(Counts())
      ensures r == Done && arg.NoArg? ==> Stack() == old([Stack()[1], Stack()[0]] + Stack()[2..]) && Counts() == old(Counts())
      ensures r == Done && Numbered(arg) ==> Stack() == old(Stack()[arg.n..] + Stack()[..arg.n]) && Counts() == old(Counts())
      ensures r == Done && !arg.NoArg? && !Numbered(arg) ==>
        fresh(dcwd) && dcwd.di_name == followed.name && Stack() == [dcwd] + old(Stack()) && Counts() == old(Counts())[dcwd := 0]
    {
      hide Sound, Others, Rot, Without;
      StackFirst();
      var dp: Dir?, deep := null, false;
      ghost var t := 0;
      if arg.NoArg? {
        dp, t := Second();
        if dp == dcwd {
          return NoDir;
        }
        if !ok {
          return System;
        }
        Exchange(dp, t);
        return Done;
      }
      if arg.Plus? {
        dp, deep, t := Dfind(arg.n);
        if deep {
          return Deep;
        }
      }
      if dp != null {
        if !ok {
          return System;
        }
        Bring(dp, t);
        return Done;
      }
      if followed.Nowhere? {
        return System;
      }
      dp := new Dir(followed.name);
      Enter(dp);
      return Done;
    }

    /** The record below the current one; with one record only, that one again. */
    method Second() returns (dp: Dir, ghost t: nat)
      requires Valid()
      ensures t < |ring| && dp == ring[t] && dp != dhead && (dp == dcwd <==> |Stack()| == 1)
      ensures |Stack()| > 1 ==> t > 0 && |Others(ring[..t], dhead)| == 1
    {
      Links(ring, 0);
      StackFirst();
      dp := dcwd.di_prev;
      t := 1;
      if dp == dhead {
        Links(ring, 1);
        dp := dhead.di_prev;
        t := Succ(1, |ring|);
      }
      Different(ring, t, 0);
      Different(ring, t, 1);
      OthersAt(ring, 0, dhead);
      OthersAt(ring, 1, dhead);
    }

    /** A record whose neighbours are the head on both sides is the only one. */
    lemma Alone(t: nat)
      requires Valid() && t < |ring| && ring[t] != dhead
      ensures ring[t].di_prev == dhead && ring[t].di_next == dhead <==> |Stack()| == 1
      ensures ring[t] == dcwd <==> t == 0
    {
      StackFirst();
      Links(ring, t);
      Different(ring, Succ(t, |ring|), Pred(t, |ring|));
      Different(ring, t, 0);
    }

    /** dopopd */
    method Dopopd(arg: Arg, ok: bool) returns (r: Report)
      requires Valid()
      modifies this`dcwd, this`ring, this`held, ring`di_next, ring`di_prev
      ensures Valid() && old(Stack()) != []
      ensures r == if !arg.NoArg? && !Numbered(arg) then BadDir
                   else if Numbered(arg) && arg.n >= |old(Stack())| then Deep
                   else if |old(Stack())| == 1 then Empty
                   else if arg.NoArg? && !ok then System else Done
      ensures r != Done ==> Stack() == old(Stack()) && Counts() == old(Counts())
      ensures r == Done && arg.NoArg? ==> Stack() == old(Stack())[1..] && Counts() == Dropped(old(Counts()), old(dcwd))
      ensures r == Done && Numbered(arg) ==>
        var s, n := old(Stack()), arg.n; Stack() == s[..n] + s[n + 1..] && s[n] in old(Counts()) && Counts() == Dropped(old(Counts()), s[n])
    {
      hide Sound, Others, Rot, Without;
      StackFirst();
      var dp: Dir?, deep := dcwd, false;
      ghost var t := 0;
      if !arg.NoArg? {
        dp := null;
        if arg.Plus? {
          dp, deep, t := Dfind(arg.n);
          if deep {
            return Deep;
          }
        }
        if dp == null {
          return BadDir;
        }
      }
      Alone(t);
      if dp.di_prev == dhead && dp.di_next == dhead {
        return Empty;
      }
      if dp == dcwd {
        ghost var u;
        var p;
        p, u := Second();
        if !ok {
          return System;
        }
        GoTo(p, u);
      } else {
        Discard(dp, t);
      }
      return Done;
    }
  }
}
