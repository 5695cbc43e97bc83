/** src/bin/csh/proc.c: the steps of the job table on the list of processes. */
module JobShell {
  import DirRing
  import opened JobTable
  import opened Seqs

  ghost function Read(p: Proc): Cell
    reads p
  {
    Cell(p.p_friends, p.p_cwd, p.p_flags, p.p_index, p.p_pid, p.p_jobid)
  }

  ghost function CellsOf(procs: seq<Proc>): Cells
    reads procs
  {
    map p | p in procs :: Read(p)
  }

  /** p may be marked, by its fields alone. */
  ghost predicate CanBe(p: Proc, cur: Proc?, pp: Proc?)
    reads p`p_pid, p`p_jobid
  {
    p != cur && p != pp && p.p_pid == p.p_jobid != 0
  }

  /** x is the first stopped process of the list that may be marked; or if none has stopped, the first
      that may; or null, if none may. */
  ghost predicate BestNow(procs: seq<Proc>, cur: Proc?, pp: Proc?, x: Proc?)
    reads procs`p_pid, procs`p_jobid, procs`p_flags
  {
    if exists p :: p in procs && CanBe(p, cur, pp) && p.p_flags.stopped then
      exists i :: 0 <= i < |procs| && x == procs[i] && CanBe(procs[i], cur, pp) && procs[i].p_flags.stopped
        && forall h :: 0 <= h < i ==> !(CanBe(procs[h], cur, pp) && procs[h].p_flags.stopped)
    else if exists p :: p in procs && CanBe(p, cur, pp) then
      exists i :: 0 <= i < |procs| && x == procs[i] && CanBe(procs[i], cur, pp) && forall h :: 0 <= h < i ==> !CanBe(procs[h], cur, pp)
    else x == null
  }

  lemma BestIsNow(procs: seq<Proc>, cur: Proc?, pp: Proc?, x: Proc?)
    requires Best(CellsOf(procs), procs, cur, pp, x)
    ensures BestNow(procs, cur, pp, x)
  {
    var cell := CellsOf(procs);
    forall p | p in procs ensures
      && (MayBe(cell, p, cur, pp) <==> CanBe(p, cur, pp))
      && (MayBeStopped(cell, p, cur, pp) <==> CanBe(p, cur, pp) && p.p_flags.stopped)
    {
      assert cell[p] == Read(p);
    }
    hide MayBe, MayBeStopped, CanBe, CellsOf;
    if exists p :: p in procs && MayBeStopped(cell, p, cur, pp) {
      var i :| 0 <= i < |procs| && x == procs[i] && MayBeStopped(cell, procs[i], cur, pp) && forall h :: 0 <= h < i ==> !MayBeStopped(cell, procs[h], cur, pp);
      assert procs[i] in procs;
      assert forall h :: 0 <= h < i ==> procs[h] in procs;
    } else if exists p :: p in procs && MayBe(cell, p, cur, pp) {
      var i :| 0 <= i < |procs| && x == procs[i] && MayBe(cell, procs[i], cur, pp) && forall h :: 0 <= h < i ==> !MayBe(cell, procs[h], cur, pp);
      assert procs[i] in procs;
      assert forall h :: 0 <= h < i ==> procs[h] in procs;
    }
  }

  /** The list that follows the node head, by p_next. */
  ghost predicate Chained(head: Proc, procs: seq<Proc>)
    reads head`p_next, procs`p_next
  {
    && head !in procs && head.p_next == (if procs == [] then null else procs[0])
    && forall i {:trigger procs[i].p_next} :: 0 <= i < |procs| ==> procs[i].p_next == if i + 1 < |procs| then procs[i + 1] else null
  }

  lemma FirstStep(cell: Cells, procs: seq<Proc>, k: nat, cur: Proc?, pp: Proc?, stopped: bool)
    requires forall p :: p in procs ==> p in cell
    ensures First(cell, procs, k, cur, pp, stopped) ==
      if k >= |procs| then null else if Suits(cell, procs[k], cur, pp, stopped) then procs[k] else First(cell, procs, k + 1, cur, pp, stopped)
  {
  }

  /** The cells of a list with one process more. */
  lemma CellsExtend(p: Proc, procs: seq<Proc>)
    requires p !in procs
    ensures CellsOf([p] + procs) == CellsOf(procs)[p := Read(p)]
  {
  }

  lemma MaxStep(cell: Cells, procs: seq<Proc>, k: nat)
    requires k <= |procs| && forall p :: p in procs ==> p in cell
    ensures MaxIndex(cell, procs, k) ==
      if k == 0 then 0 else var n, i := MaxIndex(cell, procs, k - 1), cell[procs[k - 1]].index; if i > n then i else n
  {
  }

  class Shell {
    /** The head of the list. */
    const proclist: Proc
    var pcurrent: Proc?
    var pprevious: Proc?
    var pcurrjob: Proc?
    var pmaxindex: nat
    ghost var procs: seq<Proc>
    ghost var lead: map<Proc, Proc>
    ghost var ring: map<Proc, seq<Proc>>

    ghost function TableOf(): Table
      reads this`procs, this`lead, this`ring, procs
    {
      Table(procs, CellsOf(procs), lead, ring)
    }

    ghost function Abs(): Jobs
      reads this, procs
    {
      Jobs(TableOf(), pcurrent, pprevious, pcurrjob, pmaxindex)
    }

    ghost predicate Valid()
      reads this, proclist, procs
    {
      Chained(proclist, procs) && Inv(Abs())
    }

    constructor ()
      ensures Valid() && procs == [] && pcurrent == pprevious == pcurrjob == null && pmaxindex == 0 && fresh(proclist)
    {
      proclist := new Proc(0, Flags(false, false, false, false, false, false));
      pcurrent, pprevious, pcurrjob, pmaxindex := null, null, null, 0;
      procs, lead, ring := [], map[], map[];
    }

    /** The loop of pgetcurr. */
    method Choose(pp: Proc?) returns (x: Proc?)
      requires Chained(proclist, procs) && Rings(TableOf())
      ensures x == Choice(TableOf(), pcurrent, pp)
    {
      ghost var t := TableOf();
      InTable();
      hide Rings, First, TableOf;
      var np, xp: Proc? := proclist.p_next, null;
      ghost var k := 0;
      while np != null
        invariant 0 <= k <= |procs| && np == (if k < |procs| then procs[k] else null)
        invariant First(t.cell, procs, 0, pcurrent, pp, true) == First(t.cell, procs, k, pcurrent, pp, true)
        invariant First(t.cell, procs, 0, pcurrent, pp, false) == if xp != null then xp else First(t.cell, procs, k, pcurrent, pp, false)
        decreases |procs| - k
      {
        FirstStep(t.cell, procs, k, pcurrent, pp, true);
        FirstStep(t.cell, procs, k, pcurrent, pp, false);
        assert t.cell[np] == Read(np);
        if np != pcurrent && np != pp && np.p_pid != 0 && np.p_pid == np.p_jobid {
          if np.p_flags.stopped {
            return np;
          }
          if xp == null {
            xp := np;
          }
        }
        np := np.p_next;
        k := k + 1;
      }
      FirstStep(t.cell, procs, k, pcurrent, pp, true);
      FirstStep(t.cell, procs, k, pcurrent, pp, false);
      x := xp;
    }

    lemma InTable()
      ensures TableOf().procs == procs && TableOf().cell == CellsOf(procs) && TableOf().lead == lead && TableOf().ring == ring
    {
    }

    /** pgetcurr */
    method Pgetcurr(pp: Proc?) returns (x: Proc?)
      requires Chained(proclist, procs) && Rings(TableOf())
      ensures x == Choice(TableOf(), pcurrent, pp) && BestNow(procs, pcurrent, pp, x)
    {
      InTable();
      hide *;
      ChoiceIsBest(TableOf(), pcurrent, pp);
      BestIsNow(procs, pcurrent, pp, Choice(TableOf(), pcurrent, pp));
      x := Choose(pp);
    }

    /** The cases of pclrcurr. */
    method ClearMarks(pp: Proc)
      requires Valid() && IsJob(TableOf(), pp)
      modifies this`pcurrent, this`pprevious
      ensures Valid() && Abs() == Cleared(old(Abs()), pp)
    {
      ghost var j := Abs();
      hide Rings, Ids, Choice, Largest, TableOf, BestNow;
      ClearedKeeps(j, pp);
      if pp == pcurrent {
        if pprevious != null {
          pcurrent := pprevious;
          pprevious := Pgetcurr(pp);
        } else {
          pcurrent := Pgetcurr(pp);
          pprevious := Pgetcurr(pp);
        }
      } else if pp == pprevious {
        pprevious := Pgetcurr(pp);
      }
    }

    /** pclrcurr, for the leader of a job */
    method Pclrcurr(pp: Proc)
      requires Valid() && IsJob(TableOf(), pp)
      modifies this`pcurrent, this`pprevious
      ensures Valid() && Abs() == Cleared(old(Abs()), pp)
      ensures Unmarked(CellsOf(procs), procs, pp, old(pcurrent), old(pprevious), pcurrent, pprevious)
    {
      RingsHold();
      hide *;
      Parts();
      ClearedIsUnmarked(Abs(), pp);
      ClearMarks(pp);
      Parts();
    }

    lemma RingsHold()
      requires Valid()
      ensures Rings(Abs().t)
    {
    }

    /** A ring, as the heap has it. */
    lemma RingIn(l: Proc, i: nat)
      requires Rings(TableOf()) && l in ring && i < |ring[l]|
      ensures ring[l][i] in procs && ring[l][i].p_friends == ring[l][Succ(i, |ring[l]|)] && ring[l][0] == l && Distinct(ring[l])
      ensures forall q :: q in ring[l] ==> q in procs
      ensures forall q :: q in procs && q in lead && lead[q] == l ==> q in ring[l]
      ensures forall q :: q in ring[l] ==> q in lead && lead[q] == l
    {
      var t := TableOf();
      assert IsRing(t, l);
      assert Linked(t.cell, t.ring[l], i);
      forall q | q in procs && q in lead && lead[q] == l ensures q in ring[l] {
        assert AtHome(t, q);
      }
    }

    lemma HomeIndex(p: Proc) returns (i: nat)
      requires Rings(TableOf()) && p in procs
      ensures p in lead && lead[p] in ring && i < |ring[lead[p]]| && ring[lead[p]][i] == p
    {
      HomeOf(TableOf(), p);
      i :| 0 <= i < |ring[lead[p]]| && ring[lead[p]][i] == p;
    }

    /** Along the friends to the leader of the job. */
    method Leader(pp: Proc) returns (l: Proc)
      requires Valid() && IsLive(TableOf(), pp)
      ensures pp in lead && l == lead[pp] && IsJob(TableOf(), l)
    {
      hide Rings, Ids, TableOf, Largest, Marks, Chained;
      ghost var t := TableOf();
      InTable();
      LeaderOf(t, pp);
      ghost var i := HomeIndex(pp);
      ghost var r := ring[lead[pp]];
      l := pp;
      RingIn(lead[pp], i);
      LiveRing(lead[pp], i);
      while l.p_pid != l.p_jobid
        invariant i < |r| && l == r[i] && (l.p_pid == l.p_jobid <==> i == 0)
        decreases if i == 0 then 0 else |r| - i
      {
        RingIn(lead[pp], i);
        l := l.p_friends;
        i := Succ(i, |r|);
        LiveRing(lead[pp], i);
      }
      RingIn(lead[pp], i);
    }

    /** In a live ring the leader is the one with the job id for its pid. */
    lemma LiveRing(l: Proc, i: nat)
      requires Rings(TableOf()) && Ids(TableOf()) && IsJob(TableOf(), l) && i < |ring[l]|
      ensures ring[l][i] in procs && (ring[l][i].p_pid == ring[l][i].p_jobid <==> i == 0)
    {
      var t := TableOf();
      var p := ring[l][i];
      RingIn(l, i);
      assert p in ring[l];
      HomeOf(t, p);
      assert InJob(t, p);
      LeaderOf(t, p);
    }

    /** The loop of pflush over the job. */
    method FlushRing(l: Proc)
      requires Rings(TableOf()) && l in ring
      modifies procs`p_index, procs`p_pid, procs`p_flags
      ensures CellsOf(procs) == FlushedTable(old(TableOf()), l).cell
    {
      ghost var t := TableOf();
      InTable();
      hide Rings, FlushedTable, TableOf;
      ghost var r, was := ring[l], CellsOf(procs);
      HomeOfLeader(t, l);
      var np := l;
      ghost var i := 0;
      while true
        invariant 0 <= i < |r| && np == r[i]
        invariant forall q {:trigger Read(q)} :: q in procs ==> Read(q) == if q in r[..i] then FlushedCell(was[q]) else was[q]
        decreases |r| - i
      {
        LinkAt(t, l, i);
        assert r[..i + 1] == r[..i] + [np];
        assert Read(np) == was[np];
        np.p_index, np.p_pid := 0, 0;
        np.p_flags := np.p_flags.(neednote := false);
        np := np.p_friends;
        i := i + 1;
        if np == l {
          break;
        }
      }
      assert r[..i] == r;
      FlushedAs(t, l, CellsOf(procs));
    }

    lemma FlushedAs(t: Table, l: Proc, cell: Cells)
      requires Rings(t) && l in t.ring && cell.Keys == t.cell.Keys
      requires forall q :: q in t.cell ==> cell[q] == if q in t.ring[l] then FlushedCell(t.cell[q]) else t.cell[q]
      ensures cell == FlushedTable(t, l).cell
    {
      assert IsRing(t, l);
      forall q | q in t.cell ensures q in t.ring[l] <==> t.lead[q] == l {
        assert AtHome(t, q);
      }
    }

    /** The loop of pflush over the list. */
    method FindMax() returns (idx: nat)
      requires Chained(proclist, procs)
      ensures idx == MaxIndex(CellsOf(procs), procs, |procs|)
    {
      hide MaxIndex;
      ghost var cell := CellsOf(procs);
      var np := proclist.p_next;
      idx := 0;
      ghost var k := 0;
      MaxStep(cell, procs, 0);
      while np != null
        invariant 0 <= k <= |procs| && np == (if k < |procs| then procs[k] else null)
        invariant idx == MaxIndex(cell, procs, k)
        decreases |procs| - k
      {
        MaxStep(cell, procs, k + 1);
        assert cell[np] == Read(np);
        if np.p_index > idx {
          idx := np.p_index;
        }
        np := np.p_next;
        k := k + 1;
      }
    }

    /** The loops of pflush. */
    method FlushTable(l: Proc)
      requires Chained(proclist, procs) && Rings(TableOf()) && l in ring
      modifies this`pmaxindex, procs`p_index, procs`p_pid, procs`p_flags
      ensures Chained(proclist, procs) && TableOf() == FlushedTable(old(TableOf()), l)
      ensures l in procs && pmaxindex == if old(l.p_index) == old(pmaxindex) then MaxIndex(TableOf().cell, procs, |procs|) else old(pmaxindex)
    {
      hide Rings, CellsOf, FlushedTable, MaxIndex;
      FlushedKeys(TableOf(), l);
      LeaderIn(l);
      var idx := l.p_index;
      FlushRing(l);
      if idx == pmaxindex {
        pmaxindex := FindMax();
      }
    }

    lemma LeaderIn(l: Proc)
      requires Rings(TableOf()) && l in ring
      ensures l in procs
    {
      HomeOfLeader(TableOf(), l);
    }

    /** pflush, from the leader on. */
    method FlushLive(l: Proc)
      requires Valid() && IsJob(TableOf(), l)
      modifies this`pcurrent, this`pprevious, this`pcurrjob, this`pmaxindex, procs`p_index, procs`p_pid, procs`p_flags
      ensures Valid() && Abs() == Flushed(old(Abs()), l)
      ensures Unmarked(old(CellsOf(procs)), procs, l, old(pcurrent), old(pprevious), pcurrent, pprevious)
    {
      hide Rings, Ids, TableOf, JobTable.Largest, Choice, Cleared, FlushedTable, MaxIndex, Marks, Chained, IsJob, Unmarked, Best;
      ghost var j := Abs();
      FlushedKeeps(j, l);
      FlushedKeys(j.t, l);
      IndexIn(l);
      InTable();
      Pclrcurr(l);
      if l == pcurrjob {
        pcurrjob := null;
      }
      FlushTable(l);
    }

    /** pflush: the job of pp, if it has not been flushed before. */
    method Pflush(pp: Proc)
      requires Valid() && pp in procs
      modifies this`pcurrent, this`pprevious, this`pcurrjob, this`pmaxindex, procs`p_index, procs`p_pid, procs`p_flags
      ensures Valid()
      ensures old(pp.p_pid) == 0 ==> Abs() == old(Abs())
      ensures old(pp.p_pid) != 0 ==> pp in lead && IsJob(old(TableOf()), lead[pp]) && Abs() == Flushed(old(Abs()), lead[pp])
      ensures old(pp.p_pid) != 0 ==> Unmarked(old(CellsOf(procs)), procs, lead[pp], old(pcurrent), old(pprevious), pcurrent, pprevious)
    {
      hide Valid, Abs, TableOf, Flushed, IsJob, IsLive;
      PidIn(pp);
      if pp.p_pid == 0 {
        return;
      }
      var l := Leader(pp);
      FlushLive(l);
    }

    lemma PidIn(p: Proc)
      requires p in procs
      ensures IsLive(TableOf(), p) <==> p.p_pid != 0
    {
    }

    lemma IndexIn(l: Proc)
      requires Rings(TableOf()) && IsJob(TableOf(), l)
      ensures l in procs && l in ring && TableOf().cell[l].index == l.p_index
    {
    }

    /** The search of palloc for an index that no process has. */
    method FindIndex() returns (i: nat)
      requires Chained(proclist, procs)
      ensures i > 0 && (forall p :: p in CellsOf(procs) ==> CellsOf(procs)[p].index != i)
      ensures forall k: nat :: 0 < k < i ==> Taken(CellsOf(procs), CellsOf(procs).Keys, k)
    {
      ghost var cell := CellsOf(procs);
      i := 1;
      while true
        invariant i > 0 && forall k: nat :: 0 < k < i ==> Taken(cell, cell.Keys, k)
        decreases |cell.Keys| + 1 - i
      {
        ManyJobs(cell, cell.Keys, i - 1);
        var np := proclist.p_next;
        ghost var k := 0;
        while np != null && np.p_index != i
          invariant 0 <= k <= |procs| && np == (if k < |procs| then procs[k] else null)
          invariant forall m :: 0 <= m < k ==> procs[m].p_index != i
          decreases |procs| - k
        {
          np := np.p_next;
          k := k + 1;
        }
        if np == null {
          assert forall p :: p in cell ==> p in procs && cell[p] == Read(p);
          break;
        }
        assert cell[np] == Read(np);
        assert Taken(cell, cell.Keys, i);
        ManyJobs(cell, cell.Keys, i);
        i := i + 1;
      }
    }

    /** The last friend in the ring of pcurrjob. */
    method LastFriend() returns (fp: Proc)
      requires Valid() && pcurrjob != null
      ensures pcurrjob in ring && ring[pcurrjob] != [] && fp == ring[pcurrjob][|ring[pcurrjob]| - 1] && fp in procs
    {
      hide Rings, Ids, TableOf, Marks;
      ghost var r := RingOfJob();
      fp := pcurrjob;
      ghost var i := 0;
      RingIn(pcurrjob, 0);
      while fp.p_friends != pcurrjob
        invariant 0 <= i < |r| && fp == r[i] && fp in procs && fp.p_friends == r[Succ(i, |r|)]
        decreases |r| - i
      {
        fp := fp.p_friends;
        i := i + 1;
        RingIn(pcurrjob, i);
      }
      assert Succ(i, |r|) == 0;
    }

    lemma RingOfJob() returns (r: seq<Proc>)
      requires Valid() && pcurrjob != null
      ensures Rings(TableOf()) && IsJob(TableOf(), pcurrjob) && pcurrjob in ring && pcurrjob in procs && r == ring[pcurrjob] && r != [] && r[0] == pcurrjob && Distinct(r)
    {
      HomeOfLeader(TableOf(), pcurrjob);
      RingIn(pcurrjob, 0);
      r := ring[pcurrjob];
    }

    /** The new process pp joins the job that is being put together. */
    method Join(pp: Proc)
      requires Valid() && pcurrjob != null && pp !in procs && pp != proclist && Read(pp) == Cell(null, null, pp.p_flags, 0, pp.p_pid, 0)
      modifies procs`p_friends, pp`p_cwd, pp`p_index, pp`p_friends, pp`p_jobid
      ensures CellsOf([pp] + procs) == JoinedTable(old(TableOf()), pcurrjob, pp, pp.p_pid, pp.p_flags).cell && pp.p_cwd == null
    {
      ghost var t, was := TableOf(), CellsOf(procs);
      hide Valid, Inv, Rings, TableOf, IsJob, JoinedTable, CellsOf, Distinct, Chained, Abs;
      ghost var r := RingOfJob();
      JoinedParts(t, pcurrjob, pp, pp.p_pid, pp.p_flags);
      InTable();
      var fp := LastFriend();
      assert CellsOf(procs) == was;
      CellAt(fp);
      CellAt(pcurrjob);
      pp.p_cwd, pp.p_index, pp.p_friends, pp.p_jobid := null, pcurrjob.p_index, pcurrjob, pcurrjob.p_pid;
      label L:
      fp.p_friends := pp;
      OneChanged@L(fp);
      CellsExtend(pp, procs);
      assert CellsOf(procs) == was[fp := was[fp].(friends := pp)];
      assert Read(pp) == Cell(pcurrjob, null, pp.p_flags, was[pcurrjob].index, pp.p_pid, was[pcurrjob].pid);
    }

    lemma CellAt(p: Proc)
      requires p in procs
      ensures p in CellsOf(procs) && CellsOf(procs)[p] == Read(p)
    {
    }

    twostate lemma OneChanged(p: Proc)
      requires procs == old(procs) && p in procs && forall q :: q in procs && q != p ==> unchanged(q)
      ensures CellsOf(procs) == old(CellsOf(procs))[p := Read(p)]
    {
    }

    lemma ValidLargest()
      requires Valid()
      ensures forall p :: p in Abs().t.cell ==> Abs().t.cell[p].index <= pmaxindex
    {
    }

    /** The index of the next job. */
    method NextIndex() returns (i: nat)
      requires Valid()
      modifies this`pmaxindex
      ensures NewIndex(old(Abs()), i) && pmaxindex == if i > old(pmaxindex) then i else old(pmaxindex)
    {
      ghost var j := Abs();
      InTable();
      ValidLargest();
      hide Inv, TableOf;
      if pmaxindex < BIGINDEX {
        pmaxindex := pmaxindex + 1;
        i := pmaxindex;
      } else {
        i := FindIndex();
        assert CellsOf(procs) == j.t.cell;
        if i > pmaxindex {
          pmaxindex := i;
        }
      }
    }

    /** The new process pp starts a job. */
    method Start(pp: Proc, cwd: DirRing.Dir)
      requires Valid() && pcurrjob == null && pp !in procs && pp != proclist && Read(pp) == Cell(null, null, pp.p_flags, 0, pp.p_pid, 0)
      modifies this`pcurrent, this`pprevious, this`pcurrjob, this`pmaxindex, pp`p_cwd, pp`p_index, pp`p_friends, pp`p_jobid, cwd`di_count
      ensures NewIndex(old(Abs()), pp.p_index) && cwd.di_count == old(cwd.di_count) + 1
      ensures pp.p_cwd == cwd && pp.p_friends == pp && pp.p_jobid == pp.p_pid
      ensures var j := Started(old(Abs()), pp, pp.p_pid, pp.p_flags, cwd, pp.p_index);
        pcurrent == j.pcurrent && pprevious == j.pprevious && pcurrjob == pp && pmaxindex == j.pmaxindex
      ensures CellsOf([pp] + procs) == old(CellsOf(procs))[pp := Cell(pp, cwd, pp.p_flags, pp.p_index, pp.p_pid, pp.p_pid)]
    {
      hide Inv, NewIndex, CellsOf, TableOf, Chained;
      ghost var was := CellsOf(procs);
      var i := NextIndex();
      pcurrjob := pp;
      pp.p_jobid, pp.p_friends, pp.p_cwd := pp.p_pid, pp, cwd;
      cwd.di_count := cwd.di_count + 1;
      pp.p_index := i;
      if pcurrent == null {
        pcurrent := pp;
      } else if pprevious == null {
        pprevious := pp;
      }
      assert CellsOf(procs) == was;
      CellsExtend(pp, procs);
    }

    /** The whole state, from its parts. */
    lemma Assembled(j: Jobs)
      requires procs == j.t.procs && CellsOf(procs) == j.t.cell && lead == j.t.lead && ring == j.t.ring
      requires pcurrent == j.pcurrent && pprevious == j.pprevious && pcurrjob == j.pcurrjob && pmaxindex == j.pmaxindex
      ensures Abs() == j && TableOf() == j.t
      ensures Chained(proclist, procs) && Inv(j) ==> Valid()
    {
    }

    /** What a state is made of. */
    lemma Parts()
      ensures var j := Abs();
        && procs == j.t.procs && CellsOf(procs) == j.t.cell && lead == j.t.lead && ring == j.t.ring && TableOf() == j.t
        && pcurrent == j.pcurrent && pprevious == j.pprevious && pcurrjob == j.pcurrjob && pmaxindex == j.pmaxindex
      ensures Valid() ==> Chained(proclist, procs) && Inv(Abs())
    {
    }

    lemma NotLive(p: Proc)
      requires p !in procs
      ensures p !in CellsOf(procs) && p !in LiveJobs(TableOf())
      ensures Rings(TableOf()) ==> p !in ring
    {
      if Rings(TableOf()) && p in ring {
        HomeOfLeader(TableOf(), p);
      }
    }

    /** The new process pp is put first in the list, which makes the state j. */
    method Enlist(pp: Proc, ghost j: Jobs)
      requires Chained(proclist, procs) && pp !in procs && pp != proclist && Inv(j)
      requires j.t.procs == [pp] + procs && j.t.cell == CellsOf([pp] + procs)
      requires pcurrent == j.pcurrent && pprevious == j.pprevious && pcurrjob == j.pcurrjob && pmaxindex == j.pmaxindex
      modifies this`procs, this`lead, this`ring, proclist`p_next, pp`p_next
      ensures Valid() && Abs() == j && TableOf() == j.t && procs == [pp] + old(procs) && ring == j.t.ring
    {
      hide Inv;
      pp.p_next := proclist.p_next;
      proclist.p_next := pp;
      procs, lead, ring := [pp] + procs, j.t.lead, j.t.ring;
      assert CellsOf(procs) == old(CellsOf([pp] + procs));
      Assembled(j);
    }

    /** palloc, while a job is being put together */
    method JoinJob(pp: Proc)
      requires Valid() && FreshPid(CellsOf(procs), pp.p_pid) && pcurrjob != null
      requires pp !in procs && pp != proclist && Read(pp) == Cell(null, null, pp.p_flags, 0, pp.p_pid, 0)
      modifies this`procs, this`lead, this`ring, proclist`p_next, procs`p_friends, pp
      ensures Valid() && procs == [pp] + old(procs) && LiveJobs(TableOf()) == old(LiveJobs(TableOf()))
      ensures Abs() == old(Abs()).(t := JoinedTable(old(TableOf()), pcurrjob, pp, old(pp.p_pid), old(pp.p_flags)))
      ensures pp.p_cwd == null && ring.Keys == old(ring.Keys) && pp !in ring
    {
      hide *;
      ghost var j := Abs();
      Parts();
      NotLive(pp);
      ghost var r := RingOfJob();
      ghost var t := JoinedTable(j.t, pcurrjob, pp, pp.p_pid, pp.p_flags);
      JoinedParts(j.t, pcurrjob, pp, pp.p_pid, pp.p_flags);
      JoinedKeeps(j, pp, pp.p_pid, pp.p_flags);
      Join(pp);
      Enlist(pp, j.(t := t));
    }

    /** palloc, for the first process of a job */
    method StartJob(pp: Proc, cwd: DirRing.Dir)
      requires Valid() && FreshPid(CellsOf(procs), pp.p_pid) && pcurrjob == null
      requires pp !in procs && pp != proclist && Read(pp) == Cell(null, null, pp.p_flags, 0, pp.p_pid, 0)
      modifies this, proclist`p_next, pp, cwd`di_count
      ensures Valid() && procs == [pp] + old(procs) && LiveJobs(TableOf()) == old(LiveJobs(TableOf())) + {pp}
      ensures NewIndex(old(Abs()), pp.p_index) && Abs() == Started(old(Abs()), pp, old(pp.p_pid), old(pp.p_flags), cwd, pp.p_index)
      ensures cwd.di_count == old(cwd.di_count) + 1
      ensures pp.p_index <= BIGINDEX || pp.p_index <= |LiveJobs(TableOf())|
      ensures pp.p_cwd == cwd && ring.Keys == old(ring.Keys) + {pp}
    {
      hide *;
      ghost var j := Abs();
      Parts();
      NotLive(pp);
      Start(pp, cwd);
      NewJob(j, pp, pp.p_pid, pp.p_flags, cwd, pp.p_index);
      Enlist(pp, Started(j, pp, pp.p_pid, pp.p_flags, cwd, pp.p_index));
    }

    /** The two cases of palloc. */
    method Enter(pid: nat, ampersand: bool, cwd: DirRing.Dir) returns (pp: Proc)
      requires Valid() && FreshPid(CellsOf(procs), pid)
      modifies this, proclist`p_next, procs`p_friends, cwd`di_count
      ensures Valid() && fresh(pp) && procs == [pp] + old(procs)
      ensures var flags := Flags(true, false, false, !ampersand, false, false);
        if old(pcurrjob) != null then
          Abs() == old(Abs()).(t := JoinedTable(old(TableOf()), old(pcurrjob), pp, pid, flags)) && cwd.di_count == old(cwd.di_count)
        else
          && NewIndex(old(Abs()), pp.p_index) && Abs() == Started(old(Abs()), pp, pid, flags, cwd, pp.p_index)
          && cwd.di_count == old(cwd.di_count) + 1
      ensures LiveJobs(TableOf()) == old(LiveJobs(TableOf())) + (if old(pcurrjob) == null then {pp} else {})
      ensures old(pcurrjob) == null ==> pp.p_index <= BIGINDEX || pp.p_index <= |LiveJobs(TableOf())|
      ensures pp.p_cwd == (if old(pcurrjob) == null then cwd else null)
      ensures ring.Keys == old(ring.Keys) + (if old(pcurrjob) == null then {pp} else {})
      ensures old(pcurrjob) != null ==> pp !in ring
    {
      hide Valid, TableOf, JoinedTable, CellsOf, NewIndex, StartedTable, LiveJobs, FreshPid;
      ghost var j := Abs();
      pp := new Proc(pid, Flags(true, false, false, !ampersand, false, false));
      if pcurrjob != null {
        JoinJob(pp);
      } else {
        StartJob(pp, cwd);
      }
    }

    /** palloc, for the child pid of fork; cwd is the current directory. */
    method Palloc(pid: nat, ampersand: bool, cwd: DirRing.Dir) returns (pp: Proc)
      requires Valid() && FreshPid(CellsOf(procs), pid)
      modifies this, proclist`p_next, procs`p_friends, cwd`di_count
      ensures Valid() && fresh(pp) && procs == [pp] + old(procs)
      ensures var flags := Flags(true, false, false, !ampersand, false, false);
        if old(pcurrjob) != null then
          Abs() == old(Abs()).(t := JoinedTable(old(TableOf()), old(pcurrjob), pp, pid, flags)) && cwd.di_count == old(cwd.di_count)
        else
          && NewIndex(old(Abs()), pp.p_index) && Abs() == Started(old(Abs()), pp, pid, flags, cwd, pp.p_index)
          && cwd.di_count == old(cwd.di_count) + 1
      ensures LiveJobs(TableOf()) == old(LiveJobs(TableOf())) + (if old(pcurrjob) == null then {pp} else {})
      ensures old(pcurrjob) == null ==> pp.p_index <= BIGINDEX || pp.p_index <= |LiveJobs(TableOf())|
      ensures pp.p_cwd == (if old(pcurrjob) == null then cwd else null)
      ensures ring.Keys == old(ring.Keys) + (if old(pcurrjob) == null then {pp} else {})
      ensures old(pcurrjob) != null ==> pp !in ring
      ensures pp.p_pid == pid && pp.p_flags == Flags(true, false, false, !ampersand, false, false)
      ensures old(pcurrjob) != null ==>
        && pp.p_jobid == old(pcurrjob.p_pid) && pp.p_index == old(pcurrjob.p_index) && pp.p_friends == pcurrjob == old(pcurrjob)
        && pcurrent == old(pcurrent) && pprevious == old(pprevious) && pmaxindex == old(pmaxindex)
      ensures old(pcurrjob) == null ==>
        && pp.p_jobid == pid && pp.p_friends == pp == pcurrjob
        && pcurrent == (if old(pcurrent) == null then pp else old(pcurrent))
        && pprevious == (if old(pcurrent) != null && old(pprevious) == null then pp else old(pprevious))
        && pmaxindex == (if pp.p_index > old(pmaxindex) then pp.p_index else old(pmaxindex))
      ensures old(pcurrjob) == null ==> (forall q :: q in old(procs) ==> old(q.p_index) != pp.p_index)
      ensures old(pcurrjob) == null ==>
        if old(pmaxindex) < BIGINDEX then pp.p_index == old(pmaxindex) + 1
        else forall k: nat :: 0 < k < pp.p_index ==> old(Used(procs, k))
    {
      hide *;
      ghost var j := Abs();
      Parts();
      ghost var procs0, cell0 := procs, CellsOf(procs);
      CellsAre();
      pp := Enter(pid, ampersand, cwd);
      Parts();
      CellsAre();
      ghost var flags := Flags(true, false, false, !ampersand, false, false);
      if j.pcurrjob != null {
        EnteredCell(j, pp, pid, flags);
      } else {
        StartedCell(j, pp, pid, flags, cwd, pp.p_index);
        IndexSays(j, pp.p_index);
      }
    }

    lemma CellsAre()
      ensures forall q :: q in procs <==> q in CellsOf(procs)
      ensures forall q :: q in procs ==> CellsOf(procs)[q] == Cell(q.p_friends, q.p_cwd, q.p_flags, q.p_index, q.p_pid, q.p_jobid)
      ensures Valid() && pcurrjob != null ==> pcurrjob in procs && IsJob(TableOf(), pcurrjob) && Rings(TableOf())
      ensures forall k: nat :: Taken(CellsOf(procs), CellsOf(procs).Keys, k) ==> Used(procs, k)
    {
      forall k: nat | Taken(CellsOf(procs), CellsOf(procs).Keys, k) ensures Used(procs, k) {
        var q :| q in procs && CellsOf(procs)[q].index == k;
        assert CellsOf(procs)[q] == Read(q);
      }
    }

    /** The search of pchild. */
    method FindPid(pid: nat) returns (pp: Proc?)
      requires Chained(proclist, procs)
      ensures if pp == null then forall p :: p in procs ==> p.p_pid != pid else pp in procs && pp.p_pid == pid
    {
      pp := proclist.p_next;
      ghost var k := 0;
      while pp != null
        invariant 0 <= k <= |procs| && pp == (if k < |procs| then procs[k] else null)
        invariant forall i :: 0 <= i < k ==> procs[i].p_pid != pid
        decreases |procs| - k
      {
        if pid == pp.p_pid {
          return;
        }
        pp := pp.p_next;
        k := k + 1;
      }
    }

    /** The loop of pchild that gathers the flags of the job. */
    method JobFlags(pp: Proc, ghost rot: seq<Proc>) returns (f: Flags)
      requires Turned(CellsOf(procs), rot) && rot[0] == pp && forall q :: q in rot ==> q in procs
      ensures f == Union(CellsOf(procs), Members(rot))
    {
      ghost var cell := CellsOf(procs);
      hide Union;
      f := Flags(false, false, false, false, false, false);
      UnionNone(cell);
      var fp := pp;
      ghost var k := 0;
      while true
        invariant 0 <= k < |rot| && fp == rot[k]
        invariant f == Union(cell, Members(rot[..k]))
        decreases |rot| - k
      {
        assert Members(rot[..k + 1]) == Members(rot[..k]) + {fp};
        UnionStep(cell, Members(rot[..k]), fp);
        assert TurnsAt(cell, rot, k);
        assert cell[fp] == Read(fp);
        f := OrFlags(f, fp.p_flags);
        fp := fp.p_friends;
        k := k + 1;
        if fp == pp {
          break;
        }
      }
      assert rot[..k] == rot;
    }

    /** The loop of pchild that marks stopped processes as reported. */
    method MarkReported(pp: Proc, ghost rot: seq<Proc>)
      requires Turned(CellsOf(procs), rot) && rot[0] == pp && forall q :: q in rot ==> q in procs
      modifies procs`p_flags
      ensures forall q :: q in procs ==> q.p_flags == if q in rot && old(q.p_flags.stopped) then old(q.p_flags).(reported := true) else old(q.p_flags)
    {
      ghost var was := CellsOf(procs);
      var fp := pp;
      ghost var k := 0;
      while true
        invariant 0 <= k < |rot| && fp == rot[k]
        invariant forall q {:trigger Read(q)} :: q in procs ==>
          Read(q) == if q in rot[..k] && was[q].flags.stopped then was[q].(flags := was[q].flags.(reported := true)) else was[q]
        decreases |rot| - k
      {
        assert rot[..k + 1] == rot[..k] + [fp];
        assert TurnsAt(was, rot, k);
        assert Read(fp) == was[fp];
        if fp.p_flags.stopped {
          fp.p_flags := fp.p_flags.(reported := true);
        }
        fp := fp.p_friends;
        k := k + 1;
        if fp == pp {
          break;
        }
      }
      assert rot[..k] == rot;
      forall q | q in procs ensures q.p_flags == if q in rot && was[q].flags.stopped then was[q].flags.(reported := true) else was[q].flags {
        assert Read(q).flags == q.p_flags;
      }
    }

    /** After flags have been set, the table is right as before. */
    lemma FlagsSet(j: Jobs)
      requires Inv(j) && procs == j.t.procs && lead == j.t.lead && ring == j.t.ring && SameButFlags(j.t.cell, CellsOf(procs))
      requires pcurrent == j.pcurrent && pprevious == j.pprevious && pcurrjob == j.pcurrjob && pmaxindex == j.pmaxindex
      ensures Inv(Abs()) && LiveJobs(TableOf()) == LiveJobs(j.t)
    {
      FlagsKeep(j, CellsOf(procs));
    }

    /** One process gets other flags. */
    method SetFlags(p: Proc, f: Flags)
      requires Valid() && p in procs
      modifies p`p_flags
      ensures Valid() && p in old(CellsOf(procs)) && CellsOf(procs) == old(CellsOf(procs)[p := Read(p).(flags := f)])
      ensures SameButFlags(old(CellsOf(procs)), CellsOf(procs)) && LiveJobs(TableOf()) == old(LiveJobs(TableOf()))
    {
      hide Inv;
      ghost var j := Abs();
      assert forall q :: q in procs ==> Read(q) == CellsOf(procs)[q];
      p.p_flags := f;
      FlagsSet(j);
    }

    /** The first half of pchild: the new status of pp, and the flags of its job. */
    method Report(pp: Proc, stop: bool, ghost rot: seq<Proc>) returns (f: Flags)
      requires Valid() && Turned(CellsOf(procs), rot) && rot != [] && rot[0] == pp && forall q :: q in rot ==> q in procs
      modifies procs`p_flags
      ensures Valid() && SameButFlags(old(CellsOf(procs)), CellsOf(procs)) && Turned(CellsOf(procs), rot)
      ensures LiveJobs(TableOf()) == old(LiveJobs(TableOf()))
      ensures pp in old(CellsOf(procs)) && f == Union(WithStatus(old(CellsOf(procs)), pp, stop), Members(rot))
      ensures CellsOf(procs) == StatusCells(old(CellsOf(procs)), pp, stop)
    {
      hide Valid, Turned, SameButFlags, TableOf, IsJob, Union, Members, StatusCells;
      ghost var was := CellsOf(procs);
      RotIn(was, rot);
      SetFlags(pp, pp.p_flags.(running := false, stopped := stop, reported := false));
      ghost var mid, t := CellsOf(procs), TableOf();
      StillTurned(was, mid, rot);
      f := JobFlags(pp, rot);
      assert CellsOf(procs) == mid && TableOf() == t;
      SetFlags(pp, pp.p_flags.(foregnd := false));
      StatusTwice(was, mid, pp, stop);
      FlagsTwice(was, mid, CellsOf(procs));
      StillTurned(was, CellsOf(procs), rot);
    }

    /** A stopped job becomes the current one, and the current one the previous. */
    method MakeCurrent(fp: Proc)
      requires Valid() && IsJob(TableOf(), fp)
      modifies this`pcurrent, this`pprevious
      ensures Valid() && pcurrent == fp
      ensures pprevious == if old(pcurrent) != null && old(pcurrent) != fp then old(pcurrent) else old(pprevious)
    {
      hide Rings, Ids, JobTable.Largest;
      if pcurrent != null && pcurrent != fp {
        pprevious := pcurrent;
      }
      pcurrent := fp;
    }

    /** Stopped processes are reported, once no process of the job runs. */
    method ReportStopped(pp: Proc, ghost rot: seq<Proc>)
      requires Valid() && Turned(CellsOf(procs), rot) && rot != [] && rot[0] == pp && forall q :: q in rot ==> q in procs
      modifies procs`p_flags
      ensures Valid() && SameButFlags(old(CellsOf(procs)), CellsOf(procs)) && LiveJobs(TableOf()) == old(LiveJobs(TableOf()))
      ensures CellsOf(procs) == NotedCells(old(CellsOf(procs)), Members(rot))
    {
      hide Inv, Distinct;
      ghost var j := Abs();
      ghost var was := CellsOf(procs);
      assert forall q :: q in procs ==> Read(q) == was[q];
      MarkReported(pp, rot);
      FlagsSet(j);
    }

    lemma JobIn(l: Proc)
      requires Valid() && IsJob(TableOf(), l)
      ensures l in procs && l.p_pid != 0
    {
    }

    lemma LiveIn(p: Proc)
      requires Valid() && p in procs && p.p_pid != 0
      ensures IsLive(TableOf(), p)
    {
    }

    /** pclrcurr, in terms of the marks. */
    method Clear(fp: Proc)
      requires Valid() && IsJob(TableOf(), fp)
      modifies this`pcurrent, this`pprevious
      ensures Valid() && pcurrent != fp && pprevious != fp
      ensures Unmarked(CellsOf(procs), procs, fp, old(pcurrent), old(pprevious), pcurrent, pprevious)
    {
      hide Rings, Ids, JobTable.Largest, Choice, TableOf, Unmarked;
      ClearedKeeps(Abs(), fp);
      Pclrcurr(fp);
    }

    /** pflush, in terms of the jobs that are left. */
    method FlushJob(pp: Proc)
      requires Valid() && pp in procs && pp.p_pid != 0
      modifies this`pcurrent, this`pprevious, this`pcurrjob, this`pmaxindex, procs`p_index, procs`p_pid, procs`p_flags
      ensures Valid() && pp in lead && pcurrent != lead[pp] && pprevious != lead[pp]
      ensures LiveJobs(TableOf()) == old(LiveJobs(TableOf())) - {lead[pp]}
      ensures Rings(old(TableOf())) && CellsOf(procs) == FlushedTable(old(TableOf()), lead[pp]).cell
      ensures old(pcurrent) != lead[pp] && old(pprevious) != lead[pp] ==> pcurrent == old(pcurrent) && pprevious == old(pprevious)
    {
      ghost var j := Abs();
      Pflush(pp);
      FlushedKeeps(j, lead[pp]);
      ClearedKeeps(j, lead[pp]);
      hide Inv;
    }

    /** The second half of pchild, for a job that has just stopped or ended; fp is its leader. */
    method Settle(pp: Proc, fp: Proc, stopped: bool, foregnd: bool, notify: bool) returns (ghost flushed: bool)
      requires Valid() && pp in procs && pp.p_pid != 0 && pp in lead && fp == lead[pp] && IsJob(TableOf(), fp)
      modifies this`pcurrent, this`pprevious, this`pcurrjob, this`pmaxindex, procs`p_index, procs`p_pid, procs`p_flags
      ensures Valid() && flushed == (!stopped && !foregnd && notify)
      ensures stopped ==> pcurrent == fp && pprevious == if old(pcurrent) != null && old(pcurrent) != fp then old(pcurrent) else old(pprevious)
      ensures !stopped ==> pcurrent != fp && pprevious != fp
      ensures !flushed ==> SameButFlags(old(CellsOf(procs)), CellsOf(procs)) && LiveJobs(TableOf()) == old(LiveJobs(TableOf()))
      ensures flushed ==> LiveJobs(TableOf()) == old(LiveJobs(TableOf())) - {fp}
      ensures flushed ==> Rings(old(TableOf())) && CellsOf(procs) == FlushedTable(old(TableOf()), fp).cell
      ensures !flushed ==> fp in procs && CellsOf(procs) == NeedNote(old(CellsOf(procs)), fp, !foregnd && !notify)
      ensures !stopped ==> Unmarked(old(CellsOf(procs)), procs, fp, old(pcurrent), old(pprevious), pcurrent, pprevious)
    {
      hide Valid, SameButFlags, IsJob, IsLive, TableOf, LiveJobs, Unmarked;
      flushed := false;
      JobIn(fp);
      FlagsSame(CellsOf(procs));
      ghost var cells, t := CellsOf(procs), TableOf();
      if stopped {
        MakeCurrent(fp);
      } else {
        Clear(fp);
      }
      assert CellsOf(procs) == cells && TableOf() == t;
      if !foregnd {
        if notify {
          if !stopped {
            FlushJob(pp);
            flushed := true;
          }
        } else {
          SetFlags(fp, fp.p_flags.(neednote := true));
        }
      }
    }

    lemma Friends(pp: Proc) returns (rot: seq<Proc>)
      requires Valid() && pp in procs
      ensures Turned(CellsOf(procs), rot) && rot != [] && rot[0] == pp && forall q :: q in rot ==> q in procs
      ensures pp in lead && Members(rot) == JobOf(TableOf(), pp)
    {
      HomeOf(TableOf(), pp);
      rot := FriendsOf(TableOf(), pp);
    }

    /** The second half of pchild, for any job that no longer runs; f has the flags of the job. */
    method Ended(pp: Proc, f: Flags, notify: bool, ghost rot: seq<Proc>) returns (ghost outcome: Outcome)
      requires Valid() && Turned(CellsOf(procs), rot) && rot != [] && rot[0] == pp && forall q :: q in rot ==> q in procs
      requires pp in procs && pp.p_pid != 0 && !f.running && !f.reported
      modifies this`pcurrent, this`pprevious, this`pcurrjob, this`pmaxindex, procs`p_index, procs`p_pid, procs`p_flags
      ensures Valid() && pp in lead && outcome == Verdict(lead[pp], f, notify)
      ensures Means(outcome, old(Abs()), Abs())
      ensures CellsOf(procs) == EndedCells(old(TableOf()), Members(rot), lead[pp], f, notify)
      ensures !f.stopped ==>
        Unmarked(NotedCells(old(CellsOf(procs)), Members(rot)), procs, lead[pp], old(pcurrent), old(pprevious), pcurrent, pprevious)
    {
      hide *;
      ghost var j := Abs();
      Parts();
      ReportStopped(pp, rot);
      ghost var mid, live := CellsOf(procs), LiveJobs(TableOf());
      LiveIn(pp);
      var fp := Leader(pp);
      JobLive(fp);
      assert fp in live && CellsOf(procs) == mid && LiveJobs(TableOf()) == live;
      TableIs(j.t);
      ghost var flushed := Settle(pp, fp, f.stopped, f.foregnd, f.notify || notify);
      outcome := Verdict(fp, f, notify);
      Parts();
      if !flushed {
        FlagsTwice(j.t.cell, mid, CellsOf(procs));
      }
      MeansVerdict(j, Abs(), fp, f, notify, flushed);
      EndedIs(j.t, Members(rot), fp, f, notify);
    }

    lemma TableIs(t: Table)
      requires procs == t.procs && lead == t.lead && ring == t.ring
      ensures TableOf() == t.(cell := CellsOf(procs))
    {
    }

    lemma JobLive(l: Proc)
      ensures IsJob(TableOf(), l) <==> l in LiveJobs(TableOf())
    {
    }

    /** pendjob: the next process starts a job of its own. */
    method Pendjob()
      requires Valid()
      modifies this`pcurrjob
      ensures Valid() && Abs() == old(Abs()).(pcurrjob := null)
    {
      hide Rings, Ids, JobTable.Largest;
      pcurrjob := null;
    }

    /** The loop of pstart. */
    method StartRing(pp: Proc, foregnd: bool, ghost rot: seq<Proc>)
      requires Turned(CellsOf(procs), rot) && rot[0] == pp && forall q :: q in rot ==> q in procs
      modifies procs`p_flags
      ensures forall q :: q in procs ==> q.p_flags == if q in rot then StartFlags(old(q.p_flags), foregnd) else old(q.p_flags)
    {
      ghost var was := CellsOf(procs);
      var np := pp;
      ghost var k := 0;
      while true
        invariant 0 <= k < |rot| && np == rot[k]
        invariant forall q {:trigger Read(q)} :: q in procs ==>
          Read(q) == if q in rot[..k] then was[q].(flags := StartFlags(was[q].flags, foregnd)) else was[q]
        decreases |rot| - k
      {
        assert rot[..k + 1] == rot[..k] + [np];
        assert TurnsAt(was, rot, k);
        assert Read(np) == was[np];
        if np.p_flags.running || np.p_flags.stopped {
          np.p_flags := np.p_flags.(running := true, stopped := false, foregnd := foregnd);
        }
        np := np.p_friends;
        k := k + 1;
        if np == pp {
          break;
        }
      }
      assert rot[..k] == rot;
      forall q | q in procs ensures q.p_flags == if q in rot then StartFlags(was[q].flags, foregnd) else was[q].flags {
        assert Read(q).flags == q.p_flags;
      }
    }

    /** The loop of pstart, and the state it leaves. */
    method StartFriends(pp: Proc, foregnd: bool, ghost rot: seq<Proc>)
      requires Valid() && Turned(CellsOf(procs), rot) && rot != [] && rot[0] == pp && forall q :: q in rot ==> q in procs
      modifies procs`p_flags
      ensures Valid() && SameButFlags(old(CellsOf(procs)), CellsOf(procs)) && LiveJobs(TableOf()) == old(LiveJobs(TableOf()))
      ensures forall q :: q in procs ==> q.p_flags == if q in rot then StartFlags(old(q.p_flags), foregnd) else old(q.p_flags)
    {
      hide Inv, Distinct, StartFlags;
      ghost var j := Abs();
      ghost var was := CellsOf(procs);
      assert forall q :: q in procs ==> Read(q) == was[q];
      StartRing(pp, foregnd, rot);
      FlagsSet(j);
    }

    /** pstart, for the leader pp of a job: what has not ended runs on, in the foreground or not; a job
        in the background is neither the current nor the previous one. */
    method Pstart(pp: Proc, foregnd: bool)
      requires Valid() && IsJob(TableOf(), pp)
      modifies this`pcurrent, this`pprevious, procs`p_flags
      ensures Valid() && SameButFlags(old(CellsOf(procs)), CellsOf(procs)) && LiveJobs(TableOf()) == old(LiveJobs(TableOf()))
      ensures forall q :: q in procs ==> q in lead && q.p_flags == if lead[q] == pp then StartFlags(old(q.p_flags), foregnd) else old(q.p_flags)
      ensures forall q :: q in procs && q in lead && lead[q] == pp && old(q.p_flags.running || q.p_flags.stopped) ==>
        q.p_flags == old(q.p_flags).(running := true, stopped := false, foregnd := foregnd)
      ensures forall q :: q in procs && q in lead && !(lead[q] == pp && old(q.p_flags.running || q.p_flags.stopped)) ==> q.p_flags == old(q.p_flags)
      ensures if foregnd then pcurrent == old(pcurrent) && pprevious == old(pprevious) else pcurrent != pp && pprevious != pp
      ensures !foregnd ==> Unmarked(CellsOf(procs), procs, pp, old(pcurrent), old(pprevious), pcurrent, pprevious)
    {
      StartSays(foregnd);
      hide Valid, SameButFlags, TableOf, LiveJobs, Turned, StartFlags, IsJob, Unmarked;
      JobIn(pp);
      JobLive(pp);
      ghost var rot := Friends(pp);
      Befriended(pp, rot);
      StartFriends(pp, foregnd, rot);
      if !foregnd {
        JobLive(pp);
        ghost var cell := CellsOf(procs);
        Clear(pp);
        assert CellsOf(procs) == cell;
      }
    }

    lemma Befriended(pp: Proc, rot: seq<Proc>)
      requires Valid() && IsJob(TableOf(), pp) && Members(rot) == JobOf(TableOf(), pp)
      ensures forall q :: q in procs ==> q in lead && (q in rot <==> lead[q] == pp)
    {
      HomeOfLeader(TableOf(), pp);
      forall q | q in procs ensures q in lead && (q in rot <==> lead[q] == pp) {
        HomeOf(TableOf(), q);
        assert q in Members(rot) <==> q in JobOf(TableOf(), pp);
      }
    }

    /** The process with a given pid is the only one. */
    lemma OnlyPid(pp: Proc, pid: nat)
      requires Valid() && pp in procs && pp.p_pid == pid != 0
      ensures forall q :: q in procs && q.p_pid == pid ==> q == pp
    {
      var t := TableOf();
      forall q | q in procs && q.p_pid == pid ensures q == pp {
        assert PidsDiffer(t.cell, q, pp);
        assert t.cell[q] == Read(q) && t.cell[pp] == Read(pp);
      }
    }

    /** pchild, for one child that wait3 has found; notify tells if all jobs are to be notified. */
    method Pchild(pid: nat, stop: bool, notify: bool) returns (ghost outcome: Outcome)
      requires Valid() && pid != 0
      modifies this`pcurrent, this`pprevious, this`pcurrjob, this`pmaxindex, procs`p_index, procs`p_pid, procs`p_flags
      ensures Valid()
      ensures outcome.Unknown? <==> forall p :: p in procs ==> old(p.p_pid) != pid
      ensures forall p :: p in procs && old(p.p_pid) == pid ==> outcome == Judged(old(TableOf()), p, stop, notify)
      ensures Means(outcome, old(Abs()), Abs())
      ensures forall p :: p in procs && old(p.p_pid) == pid ==> p in old(CellsOf(procs)) && CellsOf(procs) == HeardCells(old(TableOf()), p, stop, notify)
      ensures outcome.Unknown? ==> CellsOf(procs) == old(CellsOf(procs))
      ensures forall p :: p in procs && old(p.p_pid) == pid && outcome.Done? ==>
        Unmarked(NotedCells(StatusCells(old(CellsOf(procs)), p, stop), JobOf(old(TableOf()), p)), procs, outcome.l,
                 old(pcurrent), old(pprevious), pcurrent, pprevious)
    {
      hide *;
      ghost var j := Abs();
      Parts();
      var pp := FindPid(pid);
      if pp == null {
        MeansNone(j);
        return Unknown;
      }
      OnlyPid(pp, pid);
      ghost var rot := Friends(pp);
      var f := Report(pp, stop, rot);
      outcome := Running;
      ghost var mid := Abs();
      Parts();
      TableIs(j.t);
      HeardIs(j.t, pp, stop, notify, f);
      MeansRunning(j, mid);
      Judging(j.t, pp, stop, notify, f);
      if !f.running && !f.reported {
        outcome := Ended(pp, f, notify, rot);
        VerdictIs(lead[pp], f, notify);
        MeansAfter(outcome, j, mid, Abs());
      }
    }
  }

  /** The cell of a process that has been entered. */
  lemma EnteredCell(j: Jobs, p: Proc, pid: nat, flags: Flags)
    requires Rings(j.t) && j.pcurrjob != null && IsJob(j.t, j.pcurrjob) && p !in j.t.cell
    ensures j.pcurrjob in j.t.cell && p in JoinedTable(j.t, j.pcurrjob, p, pid, flags).cell
    ensures JoinedTable(j.t, j.pcurrjob, p, pid, flags).cell[p] == Cell(j.pcurrjob, null, flags, j.t.cell[j.pcurrjob].index, pid, j.t.cell[j.pcurrjob].pid)
  {
    HomeOfLeader(j.t, j.pcurrjob);
  }

  lemma StartedCell(j: Jobs, p: Proc, pid: nat, flags: Flags, cwd: DirRing.Dir, index: nat)
    ensures var j' := Started(j, p, pid, flags, cwd, index);
      && p in j'.t.cell && j'.t.cell[p] == Cell(p, cwd, flags, index, pid, pid) && j'.pcurrjob == p
      && j'.pcurrent == (if j.pcurrent == null then p else j.pcurrent)
      && j'.pprevious == (if j.pcurrent != null && j.pprevious == null then p else j.pprevious)
      && j'.pmaxindex == (if index > j.pmaxindex then index else j.pmaxindex)
  {
  }

  lemma IndexSays(j: Jobs, i: nat)
    requires NewIndex(j, i)
    ensures forall p :: p in j.t.cell ==> j.t.cell[p].index != i
    ensures if j.pmaxindex < BIGINDEX then i == j.pmaxindex + 1
        else forall k: nat :: 0 < k < i ==> Taken(j.t.cell, j.t.cell.Keys, k)
  {
  }

  /** Some process has the index k. */
  ghost predicate Used(procs: seq<Proc>, k: nat)
    reads procs`p_index
  {
    exists q :: q in procs && q.p_index == k
  }

  /** The flags of a process that is started again. */
  function StartFlags(f: Flags, foregnd: bool): Flags {
    if f.running || f.stopped then f.(running := true, stopped := false, foregnd := foregnd) else f
  }

  lemma StartSays(foregnd: bool)
    ensures forall f {:trigger StartFlags(f, foregnd)} ::
      StartFlags(f, foregnd) == if f.running || f.stopped then f.(running := true, stopped := false, foregnd := foregnd) else f
  {
  }

  function OrFlags(f: Flags, g: Flags): Flags {
    Flags(f.running || g.running, f.stopped || g.stopped, f.reported || g.reported, f.foregnd || g.foregnd,
          f.notify || g.notify, f.neednote || g.neednote)
  }

  /** The flags that some process of ps has. */
  ghost function Union(cell: Cells, ps: set<Proc>): Flags {
    Flags(exists q :: q in ps && q in cell && cell[q].flags.running,
          exists q :: q in ps && q in cell && cell[q].flags.stopped,
          exists q :: q in ps && q in cell && cell[q].flags.reported,
          exists q :: q in ps && q in cell && cell[q].flags.foregnd,
          exists q :: q in ps && q in cell && cell[q].flags.notify,
          exists q :: q in ps && q in cell && cell[q].flags.neednote)
  }

  lemma UnionNone(cell: Cells)
    ensures Union(cell, Members([])) == Flags(false, false, false, false, false, false)
  {
  }

  lemma UnionStep(cell: Cells, ps: set<Proc>, p: Proc)
    requires p in cell
    ensures Union(cell, ps + {p}) == OrFlags(Union(cell, ps), cell[p].flags)
  {
  }

  ghost function Members(r: seq<Proc>): set<Proc> {
    set q | q in r
  }

  /** The cells with the new status of p. */
  ghost function WithStatus(cell: Cells, p: Proc, stop: bool): Cells
    requires p in cell
  {
    cell[p := cell[p].(flags := cell[p].flags.(running := false, stopped := stop, reported := false))]
  }

  /** The processes of the job of p. */
  ghost function JobOf(t: Table, p: Proc): set<Proc> {
    set q | q in t.cell && q in t.lead && p in t.lead && t.lead[q] == t.lead[p]
  }

  /** What becomes of the job of l, none of whose processes runs, by the flags of them all. */
  ghost function Verdict(l: Proc, f: Flags, notify: bool): Outcome {
    if f.stopped then Stopped(l) else Done(l, !f.foregnd && (f.notify || notify))
  }

  /** What becomes of the job of p when p stops or ends: nothing, while another process of the job runs
      or has been reported. */
  ghost function Judged(t: Table, p: Proc, stop: bool, notify: bool): Outcome {
    if p !in t.cell || p !in t.lead then Unknown
    else
      var f := Union(WithStatus(t.cell, p, stop), JobOf(t, p));
      if f.running || f.reported then Running else Verdict(t.lead[p], f, notify)
  }

  /** The cells with the new status of p, which is not in the foreground any more. */
  ghost function StatusCells(cell: Cells, p: Proc, stop: bool): Cells
    requires p in cell
  {
    cell[p := cell[p].(flags := cell[p].flags.(running := false, stopped := stop, reported := false, foregnd := false))]
  }

  /** Whoever of ps has stopped has been reported. */
  ghost function NotedCells(cell: Cells, ps: set<Proc>): Cells {
    map q | q in cell :: if q in ps && cell[q].flags.stopped then cell[q].(flags := cell[q].flags.(reported := true)) else cell[q]
  }

  /** The user is to be told of l before the next prompt, if so it is. */
  ghost function NeedNote(cell: Cells, l: Proc, need: bool): Cells
    requires l in cell
  {
    if need then cell[l := cell[l].(flags := cell[l].flags.(neednote := true))] else cell
  }

  /** The cells when no process of the job ps of l runs, and f are the flags of them all. */
  ghost function EndedCells(t: Table, ps: set<Proc>, l: Proc, f: Flags, notify: bool): Cells {
    var c := NotedCells(t.cell, ps);
    if f.stopped || f.foregnd || !(f.notify || notify) then
      if l in c then NeedNote(c, l, !f.foregnd && !(f.notify || notify)) else c
    else if Rings(t.(cell := c)) then FlushedTable(t.(cell := c), l).cell
    else c
  }

  lemma EndedIs(t: Table, ps: set<Proc>, l: Proc, f: Flags, notify: bool)
    requires l in LiveJobs(t)
    ensures var c, flushed := NotedCells(t.cell, ps), !f.stopped && !f.foregnd && (f.notify || notify);
      && l in c
      && (!flushed ==> EndedCells(t, ps, l, f, notify) == NeedNote(c, l, !f.foregnd && !(f.notify || notify)))
      && (flushed && Rings(t.(cell := c)) ==> EndedCells(t, ps, l, f, notify) == FlushedTable(t.(cell := c), l).cell)
  {
  }

  /** The cells after pchild has heard of p. */
  ghost function HeardCells(t: Table, p: Proc, stop: bool, notify: bool): Cells
    requires p in t.cell
  {
    var c := StatusCells(t.cell, p, stop);
    var f := Union(WithStatus(t.cell, p, stop), JobOf(t, p));
    if f.running || f.reported || p !in t.lead then c else EndedCells(t.(cell := c), JobOf(t, p), t.lead[p], f, notify)
  }

  /** Some process of the job other than p, that runs or has been reported. */
  ghost predicate OtherGoesOn(t: Table, job: set<Proc>, p: Proc) {
    exists q :: q in job && q in t.cell && q != p && (t.cell[q].flags.running || t.cell[q].flags.reported)
  }

  ghost predicate SomeStopped(t: Table, job: set<Proc>, p: Proc, stop: bool) {
    stop || exists q :: q in job && q in t.cell && q != p && t.cell[q].flags.stopped
  }

  /** No process of the job was in the foreground. */
  ghost predicate AllBehind(t: Table, job: set<Proc>) {
    forall q :: q in job && q in t.cell ==> !t.cell[q].flags.foregnd
  }

  /** The user is told at once. */
  ghost predicate ToldAtOnce(t: Table, job: set<Proc>, notify: bool) {
    notify || exists q :: q in job && q in t.cell && t.cell[q].flags.notify
  }

  lemma UnionSays(t: Table, job: set<Proc>, p: Proc, stop: bool, notify: bool)
    requires p in t.cell && p in job
    ensures var f := Union(WithStatus(t.cell, p, stop), job);
      && (f.running || f.reported <==> OtherGoesOn(t, job, p)) && (f.stopped <==> SomeStopped(t, job, p, stop))
      && (f.foregnd <==> !AllBehind(t, job)) && (f.notify || notify <==> ToldAtOnce(t, job, notify))
  {
    var w := WithStatus(t.cell, p, stop);
    var f := Union(w, job);
    assert w.Keys == t.cell.Keys && w[p].flags == t.cell[p].flags.(running := false, stopped := stop, reported := false);
    assert forall q :: q in t.cell && q != p ==> w[q] == t.cell[q];
    hide WithStatus;
    assert f.foregnd <==> !AllBehind(t, job) by {
      assert forall q :: q in job && q in t.cell ==> w[q].flags.foregnd == t.cell[q].flags.foregnd;
    }
    assert f.notify <==> exists q :: q in job && q in t.cell && t.cell[q].flags.notify by {
      assert forall q :: q in job && q in t.cell ==> w[q].flags.notify == t.cell[q].flags.notify;
    }
  }

  /** What decides when p has stopped or ended: another process of its job that runs or has been
      reported keeps the job as it is; otherwise the job has stopped if p or another of them has, and
      else it is done; its end is told at once if none of them was in the foreground, and it or all
      jobs ask for that. */
  lemma JudgedSays(t: Table, p: Proc, stop: bool, notify: bool)
    requires Rings(t) && p in t.cell
    ensures p in t.lead && forall q :: q in JobOf(t, p) <==> q in t.cell && q in t.lead && t.lead[q] == t.lead[p]
    ensures var o, job := Judged(t, p, stop, notify), JobOf(t, p);
      && (OtherGoesOn(t, job, p) ==> o == Running)
      && (!OtherGoesOn(t, job, p) && SomeStopped(t, job, p, stop) ==> o == Stopped(t.lead[p]))
      && (!OtherGoesOn(t, job, p) && !SomeStopped(t, job, p, stop) ==> o == Done(t.lead[p], AllBehind(t, job) && ToldAtOnce(t, job, notify)))
  {
    HomeOf(t, p);
    JobOfIs(t, p);
    var f := Union(WithStatus(t.cell, p, stop), JobOf(t, p));
    Judging(t, p, stop, notify, f);
    UnionSays(t, JobOf(t, p), p, stop, notify);
    hide Union, WithStatus, JobOf, Rings, OtherGoesOn, SomeStopped, AllBehind, ToldAtOnce, Judged;
  }

  lemma HeardIs(t: Table, p: Proc, stop: bool, notify: bool, f: Flags)
    requires p in t.cell && p in t.lead && f == Union(WithStatus(t.cell, p, stop), JobOf(t, p))
    ensures var c := StatusCells(t.cell, p, stop);
      HeardCells(t, p, stop, notify) == if f.running || f.reported then c else EndedCells(t.(cell := c), JobOf(t, p), t.lead[p], f, notify)
  {
  }

  /** What pchild does to the flags: p runs no more and is not in the foreground, the flags of other
      jobs stay, and when no process of the job runs, or had been reported, all the stopped ones are
      reported now. */
  lemma HeardSays(t: Table, p: Proc, stop: bool, notify: bool)
    requires Rings(t) && p in t.cell
    ensures var c, o := HeardCells(t, p, stop, notify), Judged(t, p, stop, notify);
      && c.Keys == t.cell.Keys && !c[p].flags.running && !c[p].flags.foregnd && (c[p].flags.stopped <==> stop)
      && (forall q :: q in t.cell && q !in JobOf(t, p) ==> c[q] == t.cell[q])
      && (!o.Running? ==> forall q :: q in JobOf(t, p) ==> !c[q].flags.running && (c[q].flags.stopped ==> c[q].flags.reported))
      && (!(o.Done? && o.flushed) ==> SameButFlags(t.cell, c))
    ensures var c, o, job := HeardCells(t, p, stop, notify), Judged(t, p, stop, notify), JobOf(t, p);
      p in t.lead && (!(o.Done? && o.flushed) ==> forall q :: q in t.cell ==>
        (c[q].flags.neednote <==> t.cell[q].flags.neednote || (q == t.lead[p] && !o.Running? && AllBehind(t, job) && !ToldAtOnce(t, job, notify))))
  {
    hide *;
    HomeOf(t, p);
    JobOfIs(t, p);
    StatusSays(t.cell, p, stop);
    var c, f, ps, l := StatusCells(t.cell, p, stop), Union(WithStatus(t.cell, p, stop), JobOf(t, p)), JobOf(t, p), t.lead[p];
    HeardIs(t, p, stop, notify, f);
    Judging(t, p, stop, notify, f);
    VerdictSays(l, f, notify);
    UnionSays(t, ps, p, stop, notify);
    if !f.running && !f.reported {
      FlagsRings(t, c);
      NoneRuns(t.cell, ps, p, stop, f);
      EndedSays(t.(cell := c), ps, l, f, notify);
      if f.stopped || f.foregnd || !(f.notify || notify) {
        FlagsTwice(t.cell, c, EndedCells(t.(cell := c), ps, l, f, notify));
      }
    }
  }

  lemma StatusTwice(was: Cells, mid: Cells, p: Proc, stop: bool)
    requires p in was && mid == was[p := was[p].(flags := was[p].flags.(running := false, stopped := stop, reported := false))]
    ensures mid[p := mid[p].(flags := mid[p].flags.(foregnd := false))] == StatusCells(was, p, stop)
  {
  }

  lemma StatusSays(cell: Cells, p: Proc, stop: bool)
    requires p in cell
    ensures var c := StatusCells(cell, p, stop);
      && c.Keys == cell.Keys && SameButFlags(cell, c) && !c[p].flags.running && !c[p].flags.foregnd && c[p].flags.stopped == stop
      && (forall q :: q in cell && q != p ==> c[q] == cell[q]) && c[p].flags.neednote == cell[p].flags.neednote
  {
  }

  lemma VerdictIs(l: Proc, f: Flags, notify: bool)
    ensures var o := Verdict(l, f, notify); o.Done? ==> !f.stopped && o.l == l
  {
  }

  lemma VerdictSays(l: Proc, f: Flags, notify: bool)
    ensures var o := Verdict(l, f, notify); !o.Running? && (o.Done? && o.flushed <==> !f.stopped && !f.foregnd && (f.notify || notify))
  {
  }

  lemma JobOfIs(t: Table, p: Proc)
    requires Rings(t) && p in t.cell
    ensures p in t.lead && var l, ps := t.lead[p], JobOf(t, p); p in ps && l in ps && forall q :: q in ps <==> q in t.cell && q in t.lead && t.lead[q] == l
  {
    HomeOf(t, p);
    HomeOfLeader(t, t.lead[p]);
  }

  lemma NoneRuns(cell: Cells, ps: set<Proc>, p: Proc, stop: bool, f: Flags)
    requires p in cell && f == Union(WithStatus(cell, p, stop), ps) && !f.running && forall q :: q in ps ==> q in cell
    ensures forall q :: q in ps ==> !StatusCells(cell, p, stop)[q].flags.running
  {
    var c, w := StatusCells(cell, p, stop), WithStatus(cell, p, stop);
    forall q | q in ps ensures !c[q].flags.running {
      assert q in w && w[q].flags.running == c[q].flags.running;
    }
  }

  /** What becomes of a cell, of the job or of another one, when the job has stopped or ended. */
  ghost predicate EndsAs(b: Cell, a: Cell, ofJob: bool) {
    if ofJob then
      !a.flags.running && a.flags.stopped == b.flags.stopped && (a.flags.stopped ==> a.flags.reported) && a.flags.foregnd == b.flags.foregnd
    else a == b
  }

  lemma AllEnd(cell: Cells, c: Cells, ps: set<Proc>)
    requires c.Keys == cell.Keys && (forall q :: q in ps ==> q in cell) && forall q :: q in cell ==> EndsAs(cell[q], c[q], q in ps)
    ensures forall q :: q in cell && q !in ps ==> c[q] == cell[q]
    ensures forall q :: q in ps ==> !c[q].flags.running && (c[q].flags.stopped ==> c[q].flags.reported) && c[q].flags.stopped == cell[q].flags.stopped
    ensures forall q :: q in ps ==> c[q].flags.foregnd == cell[q].flags.foregnd
  {
  }

  lemma EndedSays(t: Table, ps: set<Proc>, l: Proc, f: Flags, notify: bool)
    requires Rings(t) && l in ps && (forall q :: q in ps <==> q in t.cell && q in t.lead && t.lead[q] == l) && forall q :: q in ps ==> !t.cell[q].flags.running
    ensures var c := EndedCells(t, ps, l, f, notify);
      && c.Keys == t.cell.Keys && (forall q :: q in t.cell && q !in ps ==> c[q] == t.cell[q])
      && (forall q :: q in ps ==> !c[q].flags.running && (c[q].flags.stopped ==> c[q].flags.reported) && c[q].flags.stopped == t.cell[q].flags.stopped)
      && (forall q :: q in ps ==> c[q].flags.foregnd == t.cell[q].flags.foregnd)
    ensures f.stopped || f.foregnd || !(f.notify || notify) ==> var c := EndedCells(t, ps, l, f, notify);
      SameButFlags(t.cell, c) && forall q :: q in t.cell ==>
        (c[q].flags.neednote <==> t.cell[q].flags.neednote || (q == l && !f.foregnd && !(f.notify || notify)))
  {
    hide *;
    var noted, cell, c := NotedCells(t.cell, ps), t.cell, EndedCells(t, ps, l, f, notify);
    NotedSays(t.cell, ps);
    FlagsRings(t, noted);
    EndedCases(t, ps, l, f, notify);
    if f.stopped || f.foregnd || !(f.notify || notify) {
      EndedKept(t.cell, noted, ps, l, !f.foregnd && !(f.notify || notify));
    } else {
      EndedGone(t, noted, ps, l);
    }
    AllEnd(cell, c, ps);
  }

  lemma EndedKept(cell: Cells, noted: Cells, ps: set<Proc>, l: Proc, need: bool)
    requires l in ps && l in cell && noted == NotedCells(cell, ps) && forall q :: q in ps ==> q in cell && !cell[q].flags.running
    ensures noted.Keys == cell.Keys && var c := NeedNote(noted, l, need);
      && c.Keys == cell.Keys && SameButFlags(cell, c) && (forall q :: q in cell ==> EndsAs(cell[q], c[q], q in ps))
      && forall q :: q in cell ==> (c[q].flags.neednote <==> cell[q].flags.neednote || (q == l && need))
  {
    hide SameButFlags, NotedCells, NeedNote;
    NotedSays(cell, ps);
    NoteSays(noted, l, need);
    FlagsTwice(cell, noted, NeedNote(noted, l, need));
  }

  lemma EndedGone(t: Table, noted: Cells, ps: set<Proc>, l: Proc)
    requires Rings(t.(cell := noted)) && noted == NotedCells(t.cell, ps)
    requires (forall q :: q in ps <==> q in t.cell && q in t.lead && t.lead[q] == l) && forall q :: q in ps ==> !t.cell[q].flags.running
    ensures var c := FlushedTable(t.(cell := noted), l).cell;
      c.Keys == t.cell.Keys && forall q :: q in t.cell ==> EndsAs(t.cell[q], c[q], q in ps)
  {
    hide Rings, NotedCells, FlushedTable;
    NotedSays(t.cell, ps);
    FlushSays(t.(cell := noted), l);
  }

  lemma EndedCases(t: Table, ps: set<Proc>, l: Proc, f: Flags, notify: bool)
    requires l in t.cell && Rings(t.(cell := NotedCells(t.cell, ps)))
    ensures var c := NotedCells(t.cell, ps);
      && l in c && EndedCells(t, ps, l, f, notify) ==
        if f.stopped || f.foregnd || !(f.notify || notify) then NeedNote(c, l, !f.foregnd && !(f.notify || notify))
        else FlushedTable(t.(cell := c), l).cell
  {
  }

  lemma FlushSays(t: Table, l: Proc)
    requires Rings(t)
    ensures var c := FlushedTable(t, l).cell;
      && c.Keys == t.cell.Keys && forall q :: q in t.cell ==>
        q in t.lead && c[q] == if t.lead[q] == l then t.cell[q].(pid := 0, index := 0, flags := t.cell[q].flags.(neednote := false)) else t.cell[q]
  {
    forall q | q in t.cell ensures q in t.lead {
      HomeOf(t, q);
    }
  }

  lemma NotedSays(cell: Cells, ps: set<Proc>)
    ensures var c := NotedCells(cell, ps);
      && c.Keys == cell.Keys && SameButFlags(cell, c) && (forall q :: q in cell && q !in ps ==> c[q] == cell[q])
      && forall q :: q in cell && q in ps ==> c[q].flags == cell[q].flags.(reported := cell[q].flags.reported || cell[q].flags.stopped)
  {
  }

  lemma NoteSays(cell: Cells, l: Proc, need: bool)
    requires l in cell
    ensures var c := NeedNote(cell, l, need);
      && c.Keys == cell.Keys && SameButFlags(cell, c) && (forall q :: q in cell && q != l ==> c[q] == cell[q])
      && c[l].flags == cell[l].flags.(neednote := cell[l].flags.neednote || need)
  {
  }

  /** What an outcome says of the job table before and after: a stopped job is the current one now,
      and the one that was current is the previous; a job that is done is neither, and it leaves the
      table when its end has been told; nothing else changes but flags. */
  ghost predicate Means(o: Outcome, j: Jobs, j': Jobs) {
    match o
    case Unknown => j' == j
    case Running => j'.pcurrent == j.pcurrent && j'.pprevious == j.pprevious && SameButFlags(j.t.cell, j'.t.cell) && LiveJobs(j'.t) == LiveJobs(j.t)
    case Stopped(l) =>
      && SameButFlags(j.t.cell, j'.t.cell) && LiveJobs(j'.t) == LiveJobs(j.t) && l in LiveJobs(j.t)
      && j'.pcurrent == l && j'.pprevious == (if j.pcurrent != null && j.pcurrent != l then j.pcurrent else j.pprevious)
    case Done(l, flushed) =>
      && l in LiveJobs(j.t) && j'.pcurrent != l && j'.pprevious != l
      && (flushed ==> LiveJobs(j'.t) == LiveJobs(j.t) - {l})
      && (!flushed ==> SameButFlags(j.t.cell, j'.t.cell) && LiveJobs(j'.t) == LiveJobs(j.t))
  }

  lemma MeansAfter(o: Outcome, j: Jobs, j1: Jobs, j2: Jobs)
    requires Means(Running, j, j1) && Means(o, j1, j2)
    ensures o != Unknown ==> Means(o, j, j2)
  {
    hide LiveJobs;
  }

  lemma MeansNone(j: Jobs)
    ensures Means(Unknown, j, j)
  {
  }

  lemma MeansRunning(j: Jobs, j': Jobs)
    requires j'.pcurrent == j.pcurrent && j'.pprevious == j.pprevious && SameButFlags(j.t.cell, j'.t.cell) && LiveJobs(j'.t) == LiveJobs(j.t)
    ensures Means(Running, j, j')
  {
  }

  lemma MeansVerdict(j: Jobs, j': Jobs, l: Proc, f: Flags, notify: bool, flushed: bool)
    requires l in LiveJobs(j.t) && flushed == (!f.stopped && !f.foregnd && (f.notify || notify))
    requires f.stopped ==> j'.pcurrent == l && j'.pprevious == if j.pcurrent != null && j.pcurrent != l then j.pcurrent else j.pprevious
    requires !f.stopped ==> j'.pcurrent != l && j'.pprevious != l
    requires if flushed then LiveJobs(j'.t) == LiveJobs(j.t) - {l} else SameButFlags(j.t.cell, j'.t.cell) && LiveJobs(j'.t) == LiveJobs(j.t)
    ensures Means(Verdict(l, f, notify), j, j')
  {
    hide LiveJobs, SameButFlags;
  }

  lemma Judging(t: Table, p: Proc, stop: bool, notify: bool, f: Flags)
    requires p in t.cell && p in t.lead && f == Union(WithStatus(t.cell, p, stop), JobOf(t, p))
    ensures Judged(t, p, stop, notify) == if f.running || f.reported then Running else Verdict(t.lead[p], f, notify)
    ensures Verdict(t.lead[p], f, notify) != Unknown && Running != Unknown
  {
  }

  /** What a change of status means for a job. */
  datatype Outcome = Unknown | Running | Stopped(l: Proc) | Done(l: Proc, flushed: bool)

  lemma FlagsSame(c: Cells)
    ensures SameButFlags(c, c)
  {
  }

  lemma FlagsTwice(c: Cells, c': Cells, c'': Cells)
    requires SameButFlags(c, c') && SameButFlags(c', c'')
    ensures SameButFlags(c, c'')
  {
  }

  lemma RotIn(cell: Cells, rot: seq<Proc>)
    requires Turned(cell, rot)
    ensures rot != [] && rot[0] in rot
  {
  }

  lemma StillTurned(cell: Cells, cell': Cells, rot: seq<Proc>)
    requires Turned(cell, rot) && SameButFlags(cell, cell')
    ensures Turned(cell', rot)
  {
    forall k | 0 <= k < |rot| ensures TurnsAt(cell', rot, k) {
      assert TurnsAt(cell, rot, k);
    }
  }

  ghost predicate TurnsAt(cell: Cells, rot: seq<Proc>, k: nat)
    requires k < |rot|
  {
    rot[k] in cell && cell[rot[k]].friends == rot[Succ(k, |rot|)]
  }

  /** A ring of friends, from any of them on. */
  ghost predicate Turned(cell: Cells, rot: seq<Proc>) {
    rot != [] && Distinct(rot) && forall k {:trigger TurnsAt(cell, rot, k)} :: 0 <= k < |rot| ==> TurnsAt(cell, rot, k)
  }

  /** The friends of p, starting with p. */
  lemma FriendsOf(t: Table, p: Proc) returns (rot: seq<Proc>)
    requires Rings(t) && p in t.cell
    ensures Turned(t.cell, rot) && rot[0] == p
    ensures forall q :: q in rot ==> q in t.cell
    ensures forall q :: q in rot <==> q in t.cell && q in t.lead && p in t.lead && t.lead[q] == t.lead[p]
  {
    HomeOf(t, p);
    var l := t.lead[p];
    var r := t.ring[l];
    var s :| 0 <= s < |r| && r[s] == p;
    assert IsRing(t, l);
    forall q | q in t.cell && q in t.lead && t.lead[q] == l ensures q in r {
      assert AtHome(t, q);
    }
    rot := Rot(r, s);
    RotMembers(r, s);
    RotAt(r, s, 0);
    hide Rot, Rings;
    forall k | 0 <= k < |r| ensures |rot| == |r| && TurnsAt(t.cell, rot, k) {
      RotAt(r, s, k);
      assert Linked(t.cell, r, if s + k < |r| then s + k else s + k - |r|);
    }
  }

  /** What a ring says of one of its processes. */
  lemma LinkAt(t: Table, l: Proc, i: nat)
    requires Rings(t) && l in t.ring && i < |t.ring[l]|
    ensures var r := t.ring[l]; r[i] in t.procs && r[i] in t.cell && t.cell[r[i]].friends == r[Succ(i, |r|)] && r[0] == l
    ensures forall k :: 0 < k < |t.ring[l]| ==> t.ring[l][k] != l
    ensures forall k :: 0 <= k < i ==> t.ring[l][k] != t.ring[l][i]
  {
    assert IsRing(t, l);
    assert Linked(t.cell, t.ring[l], i);
  }
}
