/** src/bin/csh/proc.c: the job table as a value, what holds of it in every state, and what the
    steps of the job table do to it. */
module JobTable {
  import DirRing
  import opened Seqs

  /** The flags of a process that decide what becomes of its job. */
  datatype Flags = Flags(running: bool, stopped: bool, reported: bool, foregnd: bool, notify: bool, neednote: bool)

  /** struct process */
  class Proc {
    var p_next: Proc?
    var p_friends: Proc?
    var p_cwd: DirRing.Dir?
    var p_flags: Flags
    var p_index: nat
    var p_pid: nat
    var p_jobid: nat

    constructor (pid: nat, flags: Flags)
      ensures p_next == null && p_friends == null && p_cwd == null && p_flags == flags && p_index == 0 && p_pid == pid && p_jobid == 0
    {
      p_next, p_friends, p_cwd, p_flags, p_index, p_pid, p_jobid := null, null, null, flags, 0, pid, 0;
    }
  }

  /** What a process holds, but for its place in the list. */
  datatype Cell = Cell(friends: Proc?, cwd: DirRing.Dir?, flags: Flags, index: nat, pid: nat, jobid: nat)

  type Cells = map<Proc, Cell>

  /** The table: procs is the list, newest first; lead maps every process to the first of its job;
      and ring gives the processes of each job, from the first on. */
  datatype Table = Table(procs: seq<Proc>, cell: Cells, lead: map<Proc, Proc>, ring: map<Proc, seq<Proc>>)

  /** The table and the variables beside it. */
  datatype Jobs = Jobs(t: Table, pcurrent: Proc?, pprevious: Proc?, pcurrjob: Proc?, pmaxindex: nat)

  /** Where p is at home: in the ring of its leader. */
  ghost predicate AtHome(t: Table, p: Proc) {
    p in t.cell && p in t.lead && t.lead[p] in t.ring && p in t.ring[t.lead[p]]
  }

  ghost predicate Linked(cell: Cells, r: seq<Proc>, i: nat)
    requires i < |r|
  {
    r[i] in cell && cell[r[i]].friends == r[Succ(i, |r|)]
  }

  /** The processes of one job, linked in a ring that starts with the leader. */
  ghost predicate IsRing(t: Table, l: Proc)
    requires l in t.ring
  {
    var r := t.ring[l];
    && r != [] && r[0] == l && Distinct(r)
    && (forall p :: p in r ==> p in t.cell && p in t.lead && t.lead[p] == l)
    && (forall i {:trigger Linked(t.cell, r, i)} :: 0 <= i < |r| ==> Linked(t.cell, r, i))
  }

  /** The list has every process once, and every process is in exactly one ring of friends. */
  ghost predicate Rings(t: Table) {
    && Distinct(t.procs) && (forall p :: p in t.procs ==> p in t.cell) && (forall p :: p in t.cell ==> p in t.procs) && t.lead.Keys == t.cell.Keys
    && (forall p {:trigger AtHome(t, p)} :: p in t.cell ==> AtHome(t, p))
    && (forall l {:trigger IsRing(t, l)} :: l in t.ring ==> IsRing(t, l))
  }

  ghost predicate IsLive(t: Table, p: Proc) {
    p in t.cell && t.cell[p].pid != 0
  }

  /** A job that has not been flushed, by its leader. */
  ghost predicate IsJob(t: Table, l: Proc) {
    l in t.ring && IsLive(t, l)
  }

  ghost function LiveJobs(t: Table): set<Proc> {
    set l | l in t.ring && IsLive(t, l)
  }

  /** A ring is wholly live or wholly flushed. A live one has one index and one job id, which is the
      pid of its leader; a flushed one has no index. Only leaders have a directory. */
  ghost predicate InJob(t: Table, p: Proc) {
    && p in t.cell && p in t.lead && t.lead[p] in t.cell
    && var c, l := t.cell[p], t.cell[t.lead[p]];
      && (c.pid == 0 <==> l.pid == 0)
      && (c.pid == 0 ==> c.index == 0)
      && (c.pid != 0 ==> c.index == l.index > 0 && c.jobid == l.pid)
      && (p !in t.ring ==> c.cwd == null)
  }

  /** Two live processes have different pids. */
  ghost predicate PidsDiffer(cell: Cells, p: Proc, q: Proc)
    requires p in cell && q in cell
  {
    cell[p].pid == cell[q].pid ==> p == q || cell[p].pid == 0
  }

  /** Two jobs have different indices. */
  ghost predicate IndicesDiffer(cell: Cells, l: Proc, m: Proc)
    requires l in cell && m in cell
  {
    cell[l].index == cell[m].index ==> l == m || cell[l].index == 0
  }

  ghost predicate Ids(t: Table) {
    && (forall p {:trigger InJob(t, p)} :: p in t.cell ==> InJob(t, p))
    && (forall p, q {:trigger PidsDiffer(t.cell, p, q)} :: p in t.cell && q in t.cell ==> PidsDiffer(t.cell, p, q))
    && (forall l, m {:trigger IndicesDiffer(t.cell, l, m)} :: l in t.ring && m in t.ring && l in t.cell && m in t.cell ==> IndicesDiffer(t.cell, l, m))
  }

  /** pmaxindex is the largest index there is. */
  ghost predicate Largest(cell: Cells, n: nat) {
    (forall p :: p in cell ==> cell[p].index <= n) && (n > 0 ==> exists p :: p in cell && cell[p].index == n)
  }

  /** The current and the previous job are different jobs, if there are any. */
  ghost predicate Marks(j: Jobs) {
    && (j.pcurrent != null ==> IsJob(j.t, j.pcurrent))
    && (j.pprevious != null ==> IsJob(j.t, j.pprevious))
    && (j.pcurrent == null ==> j.pprevious == null)
    && (j.pcurrent != null ==> j.pcurrent != j.pprevious)
    && (j.pcurrjob != null ==> IsJob(j.t, j.pcurrjob))
  }

  ghost predicate Inv(j: Jobs) {
    Rings(j.t) && Ids(j.t) && Largest(j.t.cell, j.pmaxindex) && Marks(j)
  }

  /** What the rings say of one process. */
  lemma HomeOf(t: Table, p: Proc)
    requires Rings(t) && p in t.cell
    ensures p in t.lead && t.lead[p] in t.ring && p in t.ring[t.lead[p]] && t.lead[p] in t.cell
    ensures p in t.ring <==> t.lead[p] == p
  {
    assert AtHome(t, p);
    assert IsRing(t, t.lead[p]);
    assert t.ring[t.lead[p]][0] in t.ring[t.lead[p]];
    if p in t.ring {
      assert IsRing(t, p);
      assert t.ring[p][0] in t.ring[p];
    }
  }

  /** Only the leader of a job has the job id for its pid, so that looking along the friends for it
      ends at the leader. */
  lemma LeaderOf(t: Table, p: Proc)
    requires Rings(t) && Ids(t) && IsLive(t, p)
    ensures t.cell[p].pid == t.cell[p].jobid <==> p in t.ring
    ensures p in t.lead && IsJob(t, t.lead[p])
  {
    HomeOf(t, p);
    hide Rings, Distinct;
    assert InJob(t, p);
    assert PidsDiffer(t.cell, p, t.lead[p]);
  }

  // pgetcurr and pclrcurr

  /** A job that pgetcurr may choose, when cur is the current one. */
  ghost predicate Eligible(cell: Cells, p: Proc, cur: Proc?, pp: Proc?)
    requires p in cell
  {
    p != cur && p != pp && cell[p].pid != 0 && cell[p].pid == cell[p].jobid
  }

  /** Eligible, and stopped if that is asked for. */
  ghost predicate Suits(cell: Cells, p: Proc, cur: Proc?, pp: Proc?, stopped: bool)
    requires p in cell
  {
    Eligible(cell, p, cur, pp) && (stopped ==> cell[p].flags.stopped)
  }

  /** The first of procs from k on that suits. */
  ghost function First(cell: Cells, procs: seq<Proc>, k: nat, cur: Proc?, pp: Proc?, stopped: bool): (x: Proc?)
    requires forall p :: p in procs ==> p in cell
    ensures x == null ==> forall i :: k <= i < |procs| ==> !Suits(cell, procs[i], cur, pp, stopped)
    ensures x != null ==> x in procs && Suits(cell, x, cur, pp, stopped)
    decreases |procs| - k
  {
    if k >= |procs| then null
    else if Suits(cell, procs[k], cur, pp, stopped) then procs[k]
    else First(cell, procs, k + 1, cur, pp, stopped)
  }

  /** The most recent job that is neither cur nor pp, preferably a stopped one. */
  ghost function Choice(t: Table, cur: Proc?, pp: Proc?): (x: Proc?)
    requires Rings(t)
  {
    var s := First(t.cell, t.procs, 0, cur, pp, true);
    if s != null then s else First(t.cell, t.procs, 0, cur, pp, false)
  }

  /** p may be marked, from its pid, its job and the marks alone. */
  ghost predicate MayBe(cell: Cells, p: Proc, cur: Proc?, pp: Proc?) {
    p in cell && p != cur && p != pp && cell[p].pid == cell[p].jobid != 0
  }

  ghost predicate MayBeStopped(cell: Cells, p: Proc, cur: Proc?, pp: Proc?) {
    MayBe(cell, p, cur, pp) && cell[p].flags.stopped
  }

  /** x is the first stopped process of the list that may be marked; or if none has stopped, the first
      that may; or null, if none may. */
  ghost predicate Best(cell: Cells, procs: seq<Proc>, cur: Proc?, pp: Proc?, x: Proc?) {
    if exists p :: p in procs && MayBeStopped(cell, p, cur, pp) then
      exists i :: 0 <= i < |procs| && x == procs[i] && MayBeStopped(cell, procs[i], cur, pp) && forall h :: 0 <= h < i ==> !MayBeStopped(cell, procs[h], cur, pp)
    else if exists p :: p in procs && MayBe(cell, p, cur, pp) then
      exists i :: 0 <= i < |procs| && x == procs[i] && MayBe(cell, procs[i], cur, pp) && forall h :: 0 <= h < i ==> !MayBe(cell, procs[h], cur, pp)
    else x == null
  }

  lemma {:induction false} FirstAt(cell: Cells, procs: seq<Proc>, k: nat, cur: Proc?, pp: Proc?, stopped: bool) returns (i: nat)
    requires forall p :: p in procs ==> p in cell
    requires First(cell, procs, k, cur, pp, stopped) != null
    ensures k <= i < |procs| && procs[i] == First(cell, procs, k, cur, pp, stopped) && Suits(cell, procs[i], cur, pp, stopped)
    ensures forall h :: k <= h < i ==> !Suits(cell, procs[h], cur, pp, stopped)
    decreases |procs| - k
  {
    i := k;
    if !Suits(cell, procs[k], cur, pp, stopped) {
      i := FirstAt(cell, procs, k + 1, cur, pp, stopped);
    }
  }

  lemma SuitsIs(cell: Cells, p: Proc, cur: Proc?, pp: Proc?)
    requires p in cell
    ensures Suits(cell, p, cur, pp, true) <==> MayBeStopped(cell, p, cur, pp)
    ensures Suits(cell, p, cur, pp, false) <==> MayBe(cell, p, cur, pp)
  {
  }

  lemma ChoiceIsBest(t: Table, cur: Proc?, pp: Proc?)
    requires Rings(t)
    ensures Best(t.cell, t.procs, cur, pp, Choice(t, cur, pp))
  {
    var procs := t.procs;
    forall p | p in procs ensures
      && (Suits(t.cell, p, cur, pp, true) <==> MayBeStopped(t.cell, p, cur, pp))
      && (Suits(t.cell, p, cur, pp, false) <==> MayBe(t.cell, p, cur, pp))
    {
      SuitsIs(t.cell, p, cur, pp);
    }
    hide Rings, Suits, MayBe, MayBeStopped, First, Best;
    if First(t.cell, procs, 0, cur, pp, true) != null {
      var i := FirstAt(t.cell, procs, 0, cur, pp, true);
      BestStopped(t.cell, procs, cur, pp, i);
    } else {
      NoneSuits(t.cell, procs, cur, pp, true);
      if First(t.cell, procs, 0, cur, pp, false) != null {
        var i := FirstAt(t.cell, procs, 0, cur, pp, false);
        BestOther(t.cell, procs, cur, pp, i);
      } else {
        NoneSuits(t.cell, procs, cur, pp, false);
        BestNone(t.cell, procs, cur, pp);
      }
    }
  }

  lemma BestStopped(cell: Cells, procs: seq<Proc>, cur: Proc?, pp: Proc?, i: nat)
    requires i < |procs| && MayBeStopped(cell, procs[i], cur, pp) && forall h :: 0 <= h < i ==> !MayBeStopped(cell, procs[h], cur, pp)
    ensures Best(cell, procs, cur, pp, procs[i])
  {
    assert procs[i] in procs;
  }

  lemma BestOther(cell: Cells, procs: seq<Proc>, cur: Proc?, pp: Proc?, i: nat)
    requires forall p :: p in procs ==> !MayBeStopped(cell, p, cur, pp)
    requires i < |procs| && MayBe(cell, procs[i], cur, pp) && forall h :: 0 <= h < i ==> !MayBe(cell, procs[h], cur, pp)
    ensures Best(cell, procs, cur, pp, procs[i])
  {
    assert procs[i] in procs;
  }

  lemma BestNone(cell: Cells, procs: seq<Proc>, cur: Proc?, pp: Proc?)
    requires forall p :: p in procs ==> !MayBeStopped(cell, p, cur, pp) && !MayBe(cell, p, cur, pp)
    ensures Best(cell, procs, cur, pp, null)
  {
  }

  lemma NoneSuits(cell: Cells, procs: seq<Proc>, cur: Proc?, pp: Proc?, stopped: bool)
    requires (forall p :: p in procs ==> p in cell) && First(cell, procs, 0, cur, pp, stopped) == null
    ensures forall p :: p in procs ==> !Suits(cell, p, cur, pp, stopped)
  {
    forall p | p in procs ensures !Suits(cell, p, cur, pp, stopped) {
      var i :| 0 <= i < |procs| && procs[i] == p;
    }
  }

  /** The marks when l may not be marked any more: the place of l goes to the other marked job or to
      the best one left, and the place behind it to the best one then. */
  ghost predicate Unmarked(cell: Cells, procs: seq<Proc>, l: Proc, cur: Proc?, prev: Proc?, cur': Proc?, prev': Proc?) {
    if l == cur then
      (if prev != null then cur' == prev else Best(cell, procs, cur, l, cur')) && Best(cell, procs, cur', l, prev')
    else if l == prev then cur' == cur && Best(cell, procs, cur, l, prev')
    else cur' == cur && prev' == prev
  }

  lemma ClearedIsUnmarked(j: Jobs, l: Proc)
    requires Rings(j.t)
    ensures var j' := Cleared(j, l); Unmarked(j.t.cell, j.t.procs, l, j.pcurrent, j.pprevious, j'.pcurrent, j'.pprevious)
  {
    hide Rings, Best, Choice;
    var cur := if j.pprevious != null then j.pprevious else Choice(j.t, j.pcurrent, l);
    ChoiceIsBest(j.t, j.pcurrent, l);
    ChoiceIsBest(j.t, cur, l);
  }

  lemma ChoiceIsJob(t: Table, cur: Proc?, pp: Proc?)
    requires Rings(t) && Ids(t)
    ensures var x := Choice(t, cur, pp); x != null ==> IsJob(t, x) && x != cur && x != pp
    ensures Choice(t, cur, pp) == null ==> forall l :: l in t.ring && IsLive(t, l) ==> l == pp || l == cur
  {
    var x := Choice(t, cur, pp);
    if x != null {
      LeaderOf(t, x);
    } else {
      forall l | l in t.ring && IsLive(t, l) ensures l == pp || l == cur {
        LeaderOf(t, l);
        assert l in t.procs;
        var i :| 0 <= i < |t.procs| && t.procs[i] == l;
        assert !Suits(t.cell, t.procs[i], cur, pp, false);
      }
    }
  }

  /** What pclrcurr makes of the marks: l is no longer one of them. */
  ghost function Cleared(j: Jobs, l: Proc): Jobs
    requires Rings(j.t)
  {
    if l == j.pcurrent then
      var cur := if j.pprevious != null then j.pprevious else Choice(j.t, j.pcurrent, l);
      j.(pcurrent := cur, pprevious := Choice(j.t, cur, l))
    else if l == j.pprevious then j.(pprevious := Choice(j.t, j.pcurrent, l))
    else j
  }

  /** The marks stay right, l is not marked, and a place is left empty only for want of other jobs. */
  lemma ClearedKeeps(j: Jobs, l: Proc)
    requires Inv(j) && IsJob(j.t, l)
    ensures var j' := Cleared(j, l); Inv(j') && j'.t == j.t && j'.pcurrent != l && j'.pprevious != l
    ensures var j' := Cleared(j, l); l == j.pcurrent || l == j.pprevious ==>
      (j'.pprevious == null ==> forall m :: m in j.t.ring && IsLive(j.t, m) ==> m == l || m == j'.pcurrent)
  {
    hide Rings, Ids, Choice;
    var cur := if j.pprevious != null then j.pprevious else Choice(j.t, j.pcurrent, l);
    ChoiceIsJob(j.t, j.pcurrent, l);
    ChoiceIsJob(j.t, cur, l);
  }

  // pflush

  function FlushedCell(c: Cell): Cell {
    c.(pid := 0, index := 0, flags := c.flags.(neednote := false))
  }

  /** All the processes of the job l are marked for deletion. */
  ghost function FlushedTable(t: Table, l: Proc): Table
    requires Rings(t)
  {
    t.(cell := map p | p in t.cell :: if t.lead[p] == l then FlushedCell(t.cell[p]) else t.cell[p])
  }

  lemma FlushedRings(t: Table, l: Proc)
    requires Rings(t)
    ensures Rings(FlushedTable(t, l))
  {
    var t' := FlushedTable(t, l);
    forall p | p in t'.cell ensures AtHome(t', p) {
      assert AtHome(t, p);
    }
    forall m | m in t'.ring ensures IsRing(t', m) {
      assert IsRing(t, m);
      var r := t.ring[m];
      forall i | 0 <= i < |r| ensures Linked(t'.cell, r, i) {
        assert Linked(t.cell, r, i);
      }
    }
  }

  lemma FlushedInJob(t: Table, l: Proc, p: Proc)
    requires Rings(t) && Ids(t) && l in t.ring && p in t.cell
    ensures InJob(FlushedTable(t, l), p)
  {
    HomeOfLeader(t, l);
    HomeOf(t, p);
    HomeOf(t, t.lead[p]);
    assert InJob(t, p);
    assert t.lead.Keys == t.cell.Keys;
    hide Rings, Ids;
  }

  lemma FlushedDiffer(t: Table, l: Proc, p: Proc, q: Proc)
    requires Rings(t) && Ids(t) && p in t.cell && q in t.cell
    ensures PidsDiffer(FlushedTable(t, l).cell, p, q)
    ensures p in t.ring && q in t.ring ==> IndicesDiffer(FlushedTable(t, l).cell, p, q)
  {
    assert PidsDiffer(t.cell, p, q);
    assert p in t.ring && q in t.ring ==> IndicesDiffer(t.cell, p, q);
    assert p in t.lead && q in t.lead;
  }

  lemma FlushedKeys(t: Table, l: Proc)
    requires Rings(t)
    ensures var t' := FlushedTable(t, l); t'.cell.Keys == t.cell.Keys && t'.ring == t.ring && t'.procs == t.procs && t'.lead == t.lead
  {
  }

  lemma FlushedIds(t: Table, l: Proc)
    requires Rings(t) && Ids(t) && l in t.ring
    ensures Ids(FlushedTable(t, l))
  {
    hide Rings, InJob, FlushedTable, PidsDiffer, IndicesDiffer;
    FlushedKeys(t, l);
    var t' := FlushedTable(t, l);
    forall p | p in t'.cell ensures InJob(t', p) {
      FlushedInJob(t, l, p);
    }
    forall p, q | p in t'.cell && q in t'.cell ensures PidsDiffer(t'.cell, p, q) {
      FlushedDiffer(t, l, p, q);
    }
    forall m, n | m in t'.ring && n in t'.ring && m in t'.cell && n in t'.cell ensures IndicesDiffer(t'.cell, m, n) {
      FlushedDiffer(t, l, m, n);
    }
  }

  lemma FlushedLive(t: Table, l: Proc)
    requires Rings(t) && Ids(t) && l in t.ring
    ensures forall m :: IsJob(FlushedTable(t, l), m) <==> IsJob(t, m) && m != l
    ensures LiveJobs(FlushedTable(t, l)) == LiveJobs(t) - {l}
  {
    var t' := FlushedTable(t, l);
    HomeOfLeader(t, l);
    forall m ensures IsJob(t', m) <==> IsJob(t, m) && m != l {
      if m in t.ring && m in t.cell {
        HomeOf(t, m);
      }
    }
    assert forall m :: m in LiveJobs(t') ==> IsJob(t', m);
    assert forall m :: m in LiveJobs(t) - {l} ==> IsJob(t', m);
  }

  lemma HomeOfLeader(t: Table, l: Proc)
    requires Rings(t) && l in t.ring
    ensures l in t.cell && l in t.lead && t.lead[l] == l && t.ring[l] != [] && t.ring[l][0] == l
  {
    assert IsRing(t, l);
    assert t.ring[l][0] in t.ring[l];
  }

  /** The largest index of the first k processes of the list. */
  ghost function MaxIndex(cell: Cells, procs: seq<Proc>, k: nat): (n: nat)
    requires k <= |procs| && forall p :: p in procs ==> p in cell
    ensures forall i :: 0 <= i < k ==> cell[procs[i]].index <= n
    ensures n > 0 ==> exists i :: 0 <= i < k && cell[procs[i]].index == n
  {
    if k == 0 then 0
    else
      var n := MaxIndex(cell, procs, k - 1);
      if cell[procs[k - 1]].index > n then cell[procs[k - 1]].index else n
  }

  /** What pflush makes of the job l. */
  ghost function Flushed(j: Jobs, l: Proc): Jobs
    requires Rings(j.t) && l in j.t.cell
  {
    var j1 := Cleared(j, l);
    var t' := FlushedTable(j.t, l);
    Jobs(t', j1.pcurrent, j1.pprevious, if l == j.pcurrjob then null else j.pcurrjob,
         if j.t.cell[l].index == j.pmaxindex then MaxIndex(t'.cell, t'.procs, |t'.procs|) else j.pmaxindex)
  }

  /** Flushing takes exactly one job out of the table, and keeps everything else right. */
  lemma FlushedKeeps(j: Jobs, l: Proc)
    requires Inv(j) && IsJob(j.t, l)
    ensures Inv(Flushed(j, l))
    ensures LiveJobs(Flushed(j, l).t) == LiveJobs(j.t) - {l}
  {
    ClearedKeeps(j, l);
    FlushedRings(j.t, l);
    FlushedIds(j.t, l);
    FlushedLive(j.t, l);
    FlushedLargest(j, l);
    hide Rings, Ids, FlushedTable, Largest, Choice, MaxIndex, LiveJobs;
  }

  lemma FlushedLargest(j: Jobs, l: Proc)
    requires Inv(j) && IsJob(j.t, l)
    ensures Largest(FlushedTable(j.t, l).cell, Flushed(j, l).pmaxindex)
  {
    var t' := FlushedTable(j.t, l);
    if j.t.cell[l].index != j.pmaxindex && j.pmaxindex > 0 {
      var p :| p in j.t.cell && j.t.cell[p].index == j.pmaxindex;
      assert InJob(j.t, p);
      assert t'.cell[p].index == j.pmaxindex;
    }
  }

  // palloc

  const BIGINDEX := 9

  /** The index of a new job. */
  ghost predicate NewIndex(j: Jobs, i: nat) {
    && i > 0 && (forall p :: p in j.t.cell ==> j.t.cell[p].index != i)
    && (if j.pmaxindex < BIGINDEX then i == j.pmaxindex + 1
        else forall k: nat :: 0 < k < i ==> Taken(j.t.cell, j.t.cell.Keys, k))
  }

  /** One of ps has the index k. */
  ghost predicate Taken(cell: Cells, ps: set<Proc>, k: nat) {
    exists p :: p in ps && p in cell && cell[p].index == k
  }

  /** With that many different indices there are that many jobs. */
  lemma {:induction false} ManyJobs(cell: Cells, jobs: set<Proc>, n: nat)
    requires forall k: nat :: 0 < k <= n ==> Taken(cell, jobs, k)
    ensures n <= |jobs|
  {
    if n > 0 {
      assert Taken(cell, jobs, n);
      var l :| l in jobs && l in cell && cell[l].index == n;
      forall k: nat | 0 < k <= n - 1 ensures Taken(cell, jobs - {l}, k) {
        assert Taken(cell, jobs, k);
        var m :| m in jobs && m in cell && cell[m].index == k;
        assert m in jobs - {l};
      }
      ManyJobs(cell, jobs - {l}, n - 1);
    }
  }

  /** The index of a new job is at most nine, or the number of jobs that there are then. */
  lemma IndexBound(j: Jobs, i: nat)
    requires Inv(j) && NewIndex(j, i)
    ensures i <= BIGINDEX || i <= |LiveJobs(j.t)| + 1
  {
    if j.pmaxindex >= BIGINDEX {
      forall k: nat | 0 < k <= i - 1 ensures Taken(j.t.cell, LiveJobs(j.t), k) {
        assert Taken(j.t.cell, j.t.cell.Keys, k);
        var p :| p in j.t.cell && j.t.cell[p].index == k;
        assert InJob(j.t, p);
        LeaderOf(j.t, p);
        assert j.t.lead[p] in LiveJobs(j.t);
      }
      ManyJobs(j.t.cell, LiveJobs(j.t), i - 1);
    }
  }

  /** A new process p in the list, as a friend of the current job. */
  ghost function JoinedTable(t: Table, l: Proc, p: Proc, pid: nat, flags: Flags): Table
    requires Rings(t) && IsJob(t, l)
  {
    LastOf(t, l);
    var last := t.ring[l][|t.ring[l]| - 1];
    var c := Cell(l, null, flags, t.cell[l].index, pid, t.cell[l].pid);
    Table([p] + t.procs, t.cell[last := t.cell[last].(friends := p)][p := c], t.lead[p := l], t.ring[l := t.ring[l] + [p]])
  }

  lemma JoinedParts(t: Table, l: Proc, p: Proc, pid: nat, flags: Flags)
    requires Rings(t) && IsJob(t, l)
    ensures l in t.ring && t.ring[l] != [] && l in t.cell
    ensures var r := t.ring[l]; var last := r[|r| - 1];
      last in t.cell && JoinedTable(t, l, p, pid, flags).cell ==
        t.cell[last := t.cell[last].(friends := p)][p := Cell(l, null, flags, t.cell[l].index, pid, t.cell[l].pid)]
    ensures var t' := JoinedTable(t, l, p, pid, flags);
      t'.procs == [p] + t.procs && t'.lead == t.lead[p := l] && t'.ring == t.ring[l := t.ring[l] + [p]]
  {
    LastOf(t, l);
  }

  lemma LastOf(t: Table, l: Proc)
    requires Rings(t) && l in t.ring
    ensures t.ring[l] != [] && t.ring[l][|t.ring[l]| - 1] in t.cell && l in t.cell
    ensures t.lead[t.ring[l][|t.ring[l]| - 1]] == l
  {
    assert IsRing(t, l);
    assert t.ring[l][|t.ring[l]| - 1] in t.ring[l] && t.ring[l][0] in t.ring[l];
  }

  lemma JoinedRings(t: Table, l: Proc, p: Proc, pid: nat, flags: Flags)
    requires Rings(t) && Ids(t) && IsJob(t, l) && p !in t.cell
    ensures Rings(JoinedTable(t, l, p, pid, flags))
  {
    LastOf(t, l);
    var t' := JoinedTable(t, l, p, pid, flags);
    var r := t.ring[l];
    var last := r[|r| - 1];
    assert IsRing(t, l);
    forall q | q in t'.cell ensures AtHome(t', q) {
      if q != p {
        assert AtHome(t, q);
      }
    }
    forall m | m in t'.ring ensures IsRing(t', m) {
      assert IsRing(t, m);
      var s, s' := t.ring[m], t'.ring[m];
      forall q | q in s' ensures q in t'.cell && q in t'.lead && t'.lead[q] == m {
        assert q in s || (m == l && q == p);
      }
      forall i | 0 <= i < |s'| ensures Linked(t'.cell, s', i) {
        if i < |s| {
          assert Linked(t.cell, s, i);
          assert s[i] in s;
          if s[i] == last {
            assert t.lead[last] == m;
            assert i == |r| - 1;
          } else if m == l {
            assert i != |r| - 1;
          }
        }
      }
    }
  }

  /** No process of the table has the pid that fork(2) has given out. */
  ghost predicate FreshPid(cell: Cells, pid: nat) {
    pid != 0 && forall p :: p in cell ==> cell[p].pid != pid
  }

  /** What the cells of the old processes are after a join: but for one link, what they were. */
  lemma JoinedCell(t: Table, l: Proc, p: Proc, pid: nat, flags: Flags, q: Proc)
    requires Rings(t) && IsJob(t, l) && p !in t.cell && q in t.cell
    ensures var t' := JoinedTable(t, l, p, pid, flags); var c := t'.cell[q];
      c == t.cell[q].(friends := c.friends) && t'.lead[q] == (if q in t.lead then t.lead[q] else q)
  {
    LastOf(t, l);
    hide Rings;
  }

  lemma JoinedInJob(t: Table, l: Proc, p: Proc, pid: nat, flags: Flags, q: Proc)
    requires Rings(t) && Ids(t) && IsJob(t, l) && p !in t.cell && FreshPid(t.cell, pid) && (q in t.cell || q == p)
    ensures InJob(JoinedTable(t, l, p, pid, flags), q)
  {
    LastOf(t, l);
    HomeOf(t, l);
    assert InJob(t, l);
    JoinedCell(t, l, p, pid, flags, l);
    if q != p {
      HomeOf(t, q);
      assert InJob(t, q);
      JoinedCell(t, l, p, pid, flags, q);
      JoinedCell(t, l, p, pid, flags, t.lead[q]);
    }
    hide Rings, Ids;
  }

  lemma JoinedDiffer(t: Table, l: Proc, p: Proc, pid: nat, flags: Flags, q: Proc, q': Proc)
    requires Rings(t) && Ids(t) && IsJob(t, l) && p !in t.cell && FreshPid(t.cell, pid)
    requires (q in t.cell || q == p) && (q' in t.cell || q' == p)
    ensures var t' := JoinedTable(t, l, p, pid, flags);
      PidsDiffer(t'.cell, q, q') && (q in t'.ring && q' in t'.ring && q in t.cell && q' in t.cell ==> IndicesDiffer(t'.cell, q, q'))
  {
    LastOf(t, l);
    if q in t.cell {
      JoinedCell(t, l, p, pid, flags, q);
    }
    if q' in t.cell {
      JoinedCell(t, l, p, pid, flags, q');
    }
    if q in t.cell && q' in t.cell {
      assert PidsDiffer(t.cell, q, q');
      if q in t.ring && q' in t.ring {
        assert IndicesDiffer(t.cell, q, q');
      }
    }
    hide Rings, Ids;
  }

  lemma JoinedKeys(t: Table, l: Proc, p: Proc, pid: nat, flags: Flags)
    requires Rings(t) && IsJob(t, l) && p !in t.cell
    ensures var t' := JoinedTable(t, l, p, pid, flags); t'.cell.Keys == t.cell.Keys + {p} && t'.ring.Keys == t.ring.Keys && p !in t.ring
  {
    LastOf(t, l);
    if p in t.ring {
      HomeOfLeader(t, p);
    }
    hide Rings;
  }

  lemma JoinedIds(t: Table, l: Proc, p: Proc, pid: nat, flags: Flags)
    requires Rings(t) && Ids(t) && IsJob(t, l) && p !in t.cell && FreshPid(t.cell, pid)
    ensures Ids(JoinedTable(t, l, p, pid, flags))
  {
    hide Rings, InJob, JoinedTable, PidsDiffer, IndicesDiffer, IsJob, FreshPid;
    JoinedKeys(t, l, p, pid, flags);
    var t' := JoinedTable(t, l, p, pid, flags);
    forall q | q in t'.cell ensures InJob(t', q) {
      JoinedInJob(t, l, p, pid, flags, q);
    }
    forall q, q' | q in t'.cell && q' in t'.cell ensures PidsDiffer(t'.cell, q, q') {
      JoinedDiffer(t, l, p, pid, flags, q, q');
    }
    forall q, q' | q in t'.ring && q' in t'.ring && q in t'.cell && q' in t'.cell ensures IndicesDiffer(t'.cell, q, q') {
      JoinedDiffer(t, l, p, pid, flags, q, q');
    }
  }

  /** A process that joins the job that is being put together. */
  lemma JoinedKeeps(j: Jobs, p: Proc, pid: nat, flags: Flags)
    requires Inv(j) && j.pcurrjob != null && p !in j.t.cell && FreshPid(j.t.cell, pid)
    ensures var j' := j.(t := JoinedTable(j.t, j.pcurrjob, p, pid, flags)); Inv(j') && LiveJobs(j'.t) == LiveJobs(j.t)
  {
    var l := j.pcurrjob;
    JoinedRings(j.t, l, p, pid, flags);
    JoinedIds(j.t, l, p, pid, flags);
    JoinedKeys(j.t, l, p, pid, flags);
    hide Rings, Ids, JoinedTable;
    var t' := JoinedTable(j.t, l, p, pid, flags);
    forall m ensures IsJob(t', m) <==> IsJob(j.t, m) {
      if m in j.t.cell {
        JoinedCell(j.t, l, p, pid, flags, m);
      }
    }
    JoinedLargest(j, p, pid, flags);
  }

  lemma JoinedLargest(j: Jobs, p: Proc, pid: nat, flags: Flags)
    requires Inv(j) && j.pcurrjob != null && p !in j.t.cell
    ensures Largest(JoinedTable(j.t, j.pcurrjob, p, pid, flags).cell, j.pmaxindex)
  {
    LastOf(j.t, j.pcurrjob);
    var t' := JoinedTable(j.t, j.pcurrjob, p, pid, flags);
    hide Rings, Ids, Marks;
    if j.pmaxindex > 0 {
      var q :| q in j.t.cell && j.t.cell[q].index == j.pmaxindex;
      assert t'.cell[q].index == j.pmaxindex;
    }
  }

  /** A new process p in the list, as a job of its own. */
  ghost function StartedTable(t: Table, p: Proc, pid: nat, flags: Flags, cwd: DirRing.Dir?, index: nat): Table {
    Table([p] + t.procs, t.cell[p := Cell(p, cwd, flags, index, pid, pid)], t.lead[p := p], t.ring[p := [p]])
  }

  /** What palloc makes of the table for a new job. */
  ghost function Started(j: Jobs, p: Proc, pid: nat, flags: Flags, cwd: DirRing.Dir?, index: nat): Jobs {
    Jobs(StartedTable(j.t, p, pid, flags, cwd, index),
         if j.pcurrent == null then p else j.pcurrent,
         if j.pcurrent != null && j.pprevious == null then p else j.pprevious,
         p, if index > j.pmaxindex then index else j.pmaxindex)
  }

  lemma StartedParts(t: Table, p: Proc, pid: nat, flags: Flags, cwd: DirRing.Dir?, index: nat)
    ensures var t' := StartedTable(t, p, pid, flags, cwd, index);
      && t'.procs == [p] + t.procs && t'.cell == t.cell[p := Cell(p, cwd, flags, index, pid, pid)]
      && t'.lead == t.lead[p := p] && t'.ring == t.ring[p := [p]]
  {
  }

  lemma StartedRings(t: Table, p: Proc, pid: nat, flags: Flags, cwd: DirRing.Dir?, index: nat)
    requires Rings(t) && p !in t.cell
    ensures Rings(StartedTable(t, p, pid, flags, cwd, index)) && p !in t.ring
  {
    if p in t.ring {
      HomeOfLeader(t, p);
    }
    var t' := StartedTable(t, p, pid, flags, cwd, index);
    forall q | q in t'.cell ensures AtHome(t', q) {
      if q != p {
        assert AtHome(t, q);
      }
    }
    forall m | m in t'.ring ensures IsRing(t', m) {
      if m != p {
        assert IsRing(t, m);
        var r := t.ring[m];
        forall i | 0 <= i < |r| ensures Linked(t'.cell, r, i) {
          assert Linked(t.cell, r, i);
          assert r[i] in r;
        }
      } else {
        assert t'.ring[p] == [p];
        assert Linked(t'.cell, [p], 0);
      }
    }
  }

  ghost predicate StartsRight(t: Table, n: Proc, pid: nat, index: nat) {
    n !in t.cell && FreshPid(t.cell, pid) && index > 0 && forall q :: q in t.cell ==> t.cell[q].index != index
  }

  lemma StartedInJob(t: Table, n: Proc, pid: nat, flags: Flags, cwd: DirRing.Dir?, index: nat, p: Proc)
    requires Rings(t) && Ids(t) && StartsRight(t, n, pid, index) && p in StartedTable(t, n, pid, flags, cwd, index).cell
    ensures InJob(StartedTable(t, n, pid, flags, cwd, index), p)
  {
    if p != n {
      HomeOf(t, p);
      assert InJob(t, p);
    }
    hide Rings, Ids;
  }

  lemma StartedDiffer(t: Table, n: Proc, pid: nat, flags: Flags, cwd: DirRing.Dir?, index: nat, p: Proc, q: Proc)
    requires Rings(t) && Ids(t) && StartsRight(t, n, pid, index) && p in StartedTable(t, n, pid, flags, cwd, index).cell && q in StartedTable(t, n, pid, flags, cwd, index).cell
    ensures PidsDiffer(StartedTable(t, n, pid, flags, cwd, index).cell, p, q)
    ensures p in StartedTable(t, n, pid, flags, cwd, index).ring && q in StartedTable(t, n, pid, flags, cwd, index).ring ==> IndicesDiffer(StartedTable(t, n, pid, flags, cwd, index).cell, p, q)
  {
    if p != n && q != n {
      assert PidsDiffer(t.cell, p, q);
      if p in t.ring && q in t.ring {
        assert IndicesDiffer(t.cell, p, q);
      }
    }
    hide Rings, Ids;
  }

  lemma StartedIds(t: Table, n: Proc, pid: nat, flags: Flags, cwd: DirRing.Dir?, index: nat)
    requires Rings(t) && Ids(t) && StartsRight(t, n, pid, index)
    ensures Ids(StartedTable(t, n, pid, flags, cwd, index))
  {
    hide Rings, InJob, PidsDiffer, IndicesDiffer, StartsRight, StartedTable;
    var t' := StartedTable(t, n, pid, flags, cwd, index);
    forall p | p in t'.cell ensures InJob(t', p) {
      StartedInJob(t, n, pid, flags, cwd, index, p);
    }
    forall p, q | p in t'.cell && q in t'.cell ensures PidsDiffer(t'.cell, p, q) {
      StartedDiffer(t, n, pid, flags, cwd, index, p, q);
    }
    forall l, m | l in t'.ring && m in t'.ring && l in t'.cell && m in t'.cell ensures IndicesDiffer(t'.cell, l, m) {
      StartedDiffer(t, n, pid, flags, cwd, index, l, m);
    }
  }

  lemma StartedLive(t: Table, p: Proc, pid: nat, flags: Flags, cwd: DirRing.Dir?, index: nat)
    requires p !in t.cell && p !in t.ring && pid != 0
    ensures forall m :: IsJob(StartedTable(t, p, pid, flags, cwd, index), m) <==> IsJob(t, m) || m == p
    ensures LiveJobs(StartedTable(t, p, pid, flags, cwd, index)) == LiveJobs(t) + {p}
  {
  }

  lemma StartedLargest(j: Jobs, p: Proc, pid: nat, flags: Flags, cwd: DirRing.Dir?, index: nat)
    requires Largest(j.t.cell, j.pmaxindex) && p !in j.t.cell && index > 0
    ensures var j' := Started(j, p, pid, flags, cwd, index); Largest(j'.t.cell, j'.pmaxindex)
  {
    var j' := Started(j, p, pid, flags, cwd, index);
    if index <= j.pmaxindex {
      var q :| q in j.t.cell && j.t.cell[q].index == j.pmaxindex;
      assert j'.t.cell[q].index == j.pmaxindex;
    } else {
      assert j'.t.cell[p].index == index;
    }
  }

  /** A new job, with a new index. */
  lemma StartedKeeps(j: Jobs, p: Proc, pid: nat, flags: Flags, cwd: DirRing.Dir?, index: nat)
    requires Inv(j) && p !in j.t.cell && FreshPid(j.t.cell, pid) && NewIndex(j, index)
    ensures Inv(Started(j, p, pid, flags, cwd, index))
    ensures LiveJobs(Started(j, p, pid, flags, cwd, index).t) == LiveJobs(j.t) + {p}
  {
    hide Rings, Ids, Largest, StartedTable, LiveJobs;
    StartedRings(j.t, p, pid, flags, cwd, index);
    assert StartsRight(j.t, p, pid, index);
    StartedIds(j.t, p, pid, flags, cwd, index);
    StartedLive(j.t, p, pid, flags, cwd, index);
    StartedLargest(j, p, pid, flags, cwd, index);
  }

  /** All that palloc does for a new job. */
  lemma NewJob(j: Jobs, p: Proc, pid: nat, flags: Flags, cwd: DirRing.Dir?, index: nat)
    requires Inv(j) && p !in j.t.cell && FreshPid(j.t.cell, pid) && NewIndex(j, index)
    ensures var j' := Started(j, p, pid, flags, cwd, index);
      && Inv(j') && LiveJobs(j'.t) == LiveJobs(j.t) + {p} && (index <= BIGINDEX || index <= |LiveJobs(j'.t)|)
      && j'.t.procs == [p] + j.t.procs && j'.t.cell == j.t.cell[p := Cell(p, cwd, flags, index, pid, pid)]
      && j'.t.ring.Keys == j.t.ring.Keys + {p} && j'.pcurrjob == p
  {
    StartedKeeps(j, p, pid, flags, cwd, index);
    StartedParts(j.t, p, pid, flags, cwd, index);
    IndexBound(j, index);
    assert p !in LiveJobs(j.t);
    hide Inv, NewIndex, FreshPid, StartedTable, LiveJobs;
  }

  // The first loop of pwait

  /** The processes that have not been flushed. */
  ghost function LiveOnes(cell: Cells, procs: seq<Proc>): seq<Proc>
    requires forall p :: p in procs ==> p in cell
  {
    if procs == [] then []
    else (if cell[procs[0]].pid != 0 then [procs[0]] else []) + LiveOnes(cell, procs[1..])
  }

  lemma {:induction false} LiveMembers(cell: Cells, procs: seq<Proc>)
    requires forall p :: p in procs ==> p in cell
    ensures forall p :: p in LiveOnes(cell, procs) ==> p in procs && cell[p].pid != 0
    ensures forall p :: p in procs && cell[p].pid != 0 ==> p in LiveOnes(cell, procs)
  {
    if procs != [] {
      LiveMembers(cell, procs[1..]);
    }
  }

  lemma {:induction false} LiveDistinct(cell: Cells, procs: seq<Proc>)
    requires Distinct(procs) && forall p :: p in procs ==> p in cell
    ensures Distinct(LiveOnes(cell, procs))
  {
    if procs != [] {
      LiveDistinct(cell, procs[1..]);
      LiveMembers(cell, procs[1..]);
      assert procs[0] !in procs[1..];
    }
  }

  /** The flushed processes are gone. */
  ghost function Reaped(t: Table): Table
    requires Rings(t)
  {
    Table(LiveOnes(t.cell, t.procs),
          map p | p in t.cell && t.cell[p].pid != 0 :: t.cell[p],
          map p | p in t.lead && p in t.cell && t.cell[p].pid != 0 :: t.lead[p],
          map l | l in t.ring && l in t.cell && t.cell[l].pid != 0 :: t.ring[l])
  }

  lemma ReapedHome(t: Table, p: Proc)
    requires Rings(t) && Ids(t) && p in Reaped(t).cell
    ensures AtHome(Reaped(t), p)
  {
    HomeOf(t, p);
    assert InJob(t, p);
    assert p in t.lead;
    hide Rings, Ids;
  }

  lemma ReapedRing(t: Table, l: Proc)
    requires Rings(t) && Ids(t) && l in Reaped(t).ring
    ensures IsRing(Reaped(t), l)
  {
    var t' := Reaped(t);
    assert IsRing(t, l);
    var r := t.ring[l];
    forall p | p in r ensures p in t'.cell && p in t'.lead && t'.lead[p] == l {
      assert InJob(t, p);
    }
    hide Rings, Ids, InJob;
    forall i | 0 <= i < |r| ensures Linked(t'.cell, r, i) {
      assert Linked(t.cell, r, i);
      assert r[i] in r;
    }
  }

  lemma ReapedList(t: Table)
    requires Rings(t)
    ensures var t' := Reaped(t);
      && Distinct(t'.procs) && (forall p :: p in t'.procs ==> p in t'.cell) && (forall p :: p in t'.cell ==> p in t'.procs)
      && t'.lead.Keys == t'.cell.Keys
  {
    LiveDistinct(t.cell, t.procs);
    LiveMembers(t.cell, t.procs);
  }

  /** As a job is flushed as a whole, only whole rings go. */
  lemma ReapedRings(t: Table)
    requires Rings(t) && Ids(t)
    ensures Rings(Reaped(t))
  {
    hide Reaped, Ids, IsRing, AtHome, Distinct;
    ReapedList(t);
    var t' := Reaped(t);
    forall p | p in t'.cell ensures AtHome(t', p) {
      ReapedHome(t, p);
    }
    forall l | l in t'.ring ensures IsRing(t', l) {
      ReapedRing(t, l);
    }
  }

  lemma ReapedInJob(t: Table, p: Proc)
    requires Rings(t) && Ids(t) && p in Reaped(t).cell
    ensures InJob(Reaped(t), p)
  {
    HomeOf(t, p);
    HomeOf(t, t.lead[p]);
    assert InJob(t, p);
    hide Rings, Ids;
  }

  lemma ReapedDiffer(t: Table, p: Proc, q: Proc)
    requires Rings(t) && Ids(t) && p in Reaped(t).cell && q in Reaped(t).cell
    ensures PidsDiffer(Reaped(t).cell, p, q)
    ensures p in Reaped(t).ring && q in Reaped(t).ring ==> IndicesDiffer(Reaped(t).cell, p, q)
  {
    assert PidsDiffer(t.cell, p, q);
    if p in t.ring && q in t.ring {
      assert IndicesDiffer(t.cell, p, q);
    }
    hide Rings, Ids;
  }

  lemma ReapedIds(t: Table)
    requires Rings(t) && Ids(t)
    ensures Ids(Reaped(t))
  {
    hide Rings, InJob, PidsDiffer, IndicesDiffer, Reaped;
    var t' := Reaped(t);
    forall p | p in t'.cell ensures InJob(t', p) {
      ReapedInJob(t, p);
    }
    forall p, q | p in t'.cell && q in t'.cell ensures PidsDiffer(t'.cell, p, q) {
      ReapedDiffer(t, p, q);
    }
    forall l, m | l in t'.ring && m in t'.ring && l in t'.cell && m in t'.cell ensures IndicesDiffer(t'.cell, l, m) {
      ReapedDiffer(t, l, m);
    }
  }

  lemma ReapedLargest(j: Jobs)
    requires Rings(j.t) && Ids(j.t) && Largest(j.t.cell, j.pmaxindex)
    ensures Largest(Reaped(j.t).cell, j.pmaxindex)
  {
    if j.pmaxindex > 0 {
      var q :| q in j.t.cell && j.t.cell[q].index == j.pmaxindex;
      assert InJob(j.t, q);
      assert Reaped(j.t).cell[q].index == j.pmaxindex;
    }
  }

  lemma ReapedLive(t: Table)
    requires Rings(t)
    ensures forall m :: IsJob(Reaped(t), m) <==> IsJob(t, m)
    ensures LiveJobs(Reaped(t)) == LiveJobs(t)
  {
  }

  /** Freeing the flushed processes leaves the jobs as they are. */
  lemma ReapedKeeps(j: Jobs)
    requires Inv(j)
    ensures Inv(j.(t := Reaped(j.t))) && LiveJobs(Reaped(j.t)) == LiveJobs(j.t)
  {
    hide Rings, Ids, Largest, Reaped, LiveJobs;
    ReapedRings(j.t);
    ReapedIds(j.t);
    ReapedLargest(j);
    ReapedLive(j.t);
  }

  // Flags

  /** Two tables that differ in flags only. */
  ghost predicate SameButFlags(cell: Cells, cell': Cells) {
    cell'.Keys == cell.Keys && forall p :: p in cell ==> cell'[p] == cell[p].(flags := cell'[p].flags)
  }

  /** Setting flags keeps everything else right. */
  lemma FlagsKeep(j: Jobs, cell': Cells)
    requires Inv(j) && SameButFlags(j.t.cell, cell')
    ensures Inv(j.(t := j.t.(cell := cell'))) && LiveJobs(j.t.(cell := cell')) == LiveJobs(j.t)
  {
    FlagsRings(j.t, cell');
    FlagsIds(j.t, cell');
    hide Rings, Ids;
    if j.pmaxindex > 0 {
      var q :| q in j.t.cell && j.t.cell[q].index == j.pmaxindex;
      assert cell'[q].index == j.pmaxindex;
    }
  }

  lemma FlagsRings(t: Table, cell': Cells)
    requires Rings(t) && SameButFlags(t.cell, cell')
    ensures Rings(t.(cell := cell'))
  {
    var t' := t.(cell := cell');
    forall p | p in t'.cell ensures AtHome(t', p) {
      assert AtHome(t, p);
    }
    forall l | l in t'.ring ensures IsRing(t', l) {
      assert IsRing(t, l);
      forall i | 0 <= i < |t.ring[l]| ensures Linked(cell', t.ring[l], i) {
        assert Linked(t.cell, t.ring[l], i);
      }
    }
  }

  lemma FlagsInJob(t: Table, cell': Cells, p: Proc)
    requires Rings(t) && Ids(t) && SameButFlags(t.cell, cell') && p in t.(cell := cell').cell
    ensures InJob(t.(cell := cell'), p)
  {
    HomeOf(t, p);
    assert InJob(t, p);
    hide Rings, Ids;
  }

  lemma FlagsDiffer(t: Table, cell': Cells, p: Proc, q: Proc)
    requires Rings(t) && Ids(t) && SameButFlags(t.cell, cell') && p in t.(cell := cell').cell && q in t.(cell := cell').cell
    ensures PidsDiffer(t.(cell := cell').cell, p, q)
    ensures p in t.(cell := cell').ring && q in t.(cell := cell').ring ==> IndicesDiffer(t.(cell := cell').cell, p, q)
  {
    assert PidsDiffer(t.cell, p, q);
    if p in t.ring && q in t.ring {
      assert IndicesDiffer(t.cell, p, q);
    }
    hide Rings, Ids;
  }

  lemma FlagsIds(t: Table, cell': Cells)
    requires Rings(t) && Ids(t) && SameButFlags(t.cell, cell')
    ensures Ids(t.(cell := cell'))
  {
    hide Rings, InJob, PidsDiffer, IndicesDiffer, SameButFlags;
    var t' := t.(cell := cell');
    forall p | p in t'.cell ensures InJob(t', p) {
      FlagsInJob(t, cell', p);
    }
    forall p, q | p in t'.cell && q in t'.cell ensures PidsDiffer(t'.cell, p, q) {
      FlagsDiffer(t, cell', p, q);
    }
    forall l, m | l in t'.ring && m in t'.ring && l in t'.cell && m in t'.cell ensures IndicesDiffer(t'.cell, l, m) {
      FlagsDiffer(t, cell', l, m);
    }
  }

}
