/** src/bin/csh/proc.c and src/bin/csh/dir.c together: the job table, the ring of directories, and
    the references that processes have to directories. */
module JobDirs {
  import opened JobTable
  import opened JobShell
  import opened DirRing
  import opened Seqs

  /** The processes that refer to the record d. */
  ghost function Users(procs: seq<Proc>, d: Dir): set<Proc>
    reads procs`p_cwd
  {
    set p | p in procs && p.p_cwd == d
  }

  /** Every count is the number of references, and every reference is counted. */
  ghost predicate Counted(procs: seq<Proc>, counts: map<Dir, int>)
    reads procs`p_cwd
  {
    && (forall d :: d in counts ==> counts[d] == |Users(procs, d)|)
    && (forall p :: p in procs && p.p_cwd != null ==> p.p_cwd in counts)
  }

  /** The leader of every job knows a directory. */
  ghost predicate Homed(procs: seq<Proc>, leaders: set<Proc>)
    reads procs`p_cwd
  {
    forall p :: p in procs && p in leaders ==> p.p_cwd != null
  }

  /** Nobody refers to a new record, or to one that is dropped. */
  lemma NewCounted(procs: seq<Proc>, counts: map<Dir, int>, d: Dir)
    requires Counted(procs, counts) && d !in counts
    ensures Counted(procs, counts[d := 0])
  {
    assert Users(procs, d) == {};
  }

  lemma DroppedCounted(procs: seq<Proc>, counts: map<Dir, int>, d: Dir)
    requires Counted(procs, counts) && d in counts
    ensures Counted(procs, Dropped(counts, d))
  {
    if counts[d] == 0 {
      assert Users(procs, d) == {};
      forall p | p in procs && p.p_cwd != null ensures p.p_cwd in counts - {d} {
        assert p !in Users(procs, d);
      }
    }
  }

  lemma UsersMore(procs: seq<Proc>, p: Proc, d: Dir)
    requires p !in procs
    ensures Users([p] + procs, d) == (if p.p_cwd == d then Users(procs, d) + {p} else Users(procs, d)) && p !in Users(procs, d)
  {
  }

  lemma UsersLess(procs: seq<Proc>, less: seq<Proc>, p: Proc, d: Dir)
    requires p in procs && forall q :: q in less <==> q in procs && q != p
    ensures Users(less, d) == (if p.p_cwd == d then Users(procs, d) - {p} else Users(procs, d)) && (p in Users(procs, d) <==> p.p_cwd == d)
  {
  }

  /** A process more, in a directory, if it has one. */
  lemma MoreCounted(procs: seq<Proc>, counts: map<Dir, int>, p: Proc)
    requires Counted(procs, counts) && p !in procs && (p.p_cwd != null ==> p.p_cwd in counts)
    ensures Counted([p] + procs, if p.p_cwd == null then counts else counts[p.p_cwd := counts[p.p_cwd] + 1])
  {
    hide Users;
    forall d | d in counts ensures |Users([p] + procs, d)| == counts[d] + (if p.p_cwd == d then 1 else 0) {
      UsersMore(procs, p, d);
    }
  }

  /** A process less. */
  lemma LessCounted(procs: seq<Proc>, less: seq<Proc>, counts: map<Dir, int>, p: Proc)
    requires Counted(procs, counts) && p in procs && forall q :: q in less <==> q in procs && q != p
    ensures p.p_cwd != null ==> p.p_cwd in counts && counts[p.p_cwd] > 0
    ensures Counted(less, if p.p_cwd == null then counts else counts[p.p_cwd := counts[p.p_cwd] - 1])
  {
    hide Users;
    forall d | d in counts ensures |Users(less, d)| == counts[d] - (if p.p_cwd == d then 1 else 0) {
      UsersLess(procs, less, p, d);
    }
    if p.p_cwd != null {
      UsersLess(procs, less, p, p.p_cwd);
      assert Users(procs, p.p_cwd) != {};
    }
  }

  lemma MoreHomed(procs: seq<Proc>, leaders: set<Proc>, p: Proc)
    requires Homed(procs, leaders) && (p in leaders ==> p.p_cwd != null)
    ensures Homed([p] + procs, leaders) && (p.p_cwd != null ==> Homed([p] + procs, leaders + {p}))
  {
  }

  lemma DistinctLess(done: seq<Proc>, p: Proc, rest: seq<Proc>)
    requires Distinct(done + [p] + rest)
    ensures Distinct(done + rest) && p !in done + rest
  {
    var s, t := done + rest, done + [p] + rest;
    forall i, j | 0 <= i < j < |s| ensures s[i] != s[j] {
      assert s[i] == t[if i < |done| then i else i + 1] && s[j] == t[if j < |done| then j else j + 1];
    }
    forall i | 0 <= i < |s| ensures s[i] != p {
      assert t[|done|] == p && s[i] == t[if i < |done| then i else i + 1];
    }
  }

  /** What comes after fp in the list, where done comes before it, or ends with it. */
  lemma ChainedAt(head: Proc, fp: Proc, done: seq<Proc>, rest: seq<Proc>)
    requires Chained(head, done + rest) && fp == if done == [] then head else done[|done| - 1]
    ensures fp.p_next == if rest == [] then null else rest[0]
  {
    if done != [] {
      assert fp == (done + rest)[|done| - 1];
    }
  }

  /** What the processes of the list hold. */
  ghost predicate Reads(procs: seq<Proc>, cell: Cells)
    reads procs
  {
    (forall q :: q in procs ==> q in cell) && forall q {:trigger Read(q)} :: q in procs ==> Read(q) == cell[q]
  }

  ghost predicate Knows(cell: Cells, leaders: set<Proc>) {
    forall p :: p in cell && p in leaders ==> cell[p].cwd != null
  }

  lemma HomedRead(procs: seq<Proc>, cell: Cells, leaders: set<Proc>)
    requires Reads(procs, cell)
    ensures Knows(cell, leaders) ==> Homed(procs, leaders)
    ensures Homed(procs, leaders) && cell.Keys == (set p | p in procs) ==> Knows(cell, leaders)
  {
    assert forall p :: p in procs ==> Read(p) == cell[p];
  }

  lemma KnowsFewer(cell: Cells, leaders: set<Proc>, fewer: set<Proc>)
    requires Knows(cell, leaders) && fewer <= leaders
    ensures Knows(cell, fewer)
  {
  }

  lemma ReadsIn(procs: seq<Proc>, cell: Cells)
    requires Reads(procs, cell)
    ensures forall q :: q in procs ==> q in cell
  {
  }

  lemma ReadsAt(procs: seq<Proc>, cell: Cells, p: Proc)
    requires Reads(procs, cell) && p in procs
    ensures p in cell && p.p_pid == cell[p].pid
  {
    assert Read(p) == cell[p];
  }

  lemma AsRead(procs: seq<Proc>)
    ensures Reads(procs, CellsOf(procs))
  {
  }

  lemma InvList(j: Jobs)
    requires Inv(j)
    ensures Rings(j.t) && Distinct(j.t.procs) && j.t.cell.Keys == set p | p in j.t.procs
  {
  }

  /** The parts of the table without the flushed processes. */
  lemma ReapedParts(t: Table)
    requires Rings(t)
    ensures var t' := Reaped(t);
      && t'.procs == LiveOnes(t.cell, t.procs) && t'.ring.Keys <= t.ring.Keys
      && t'.cell.Keys == (set p | p in t'.procs) && forall p :: p in t'.procs ==> p in t.cell && t'.cell[p] == t.cell[p]
  {
    LiveMembers(t.cell, t.procs);
  }

  lemma CellsRead(procs: seq<Proc>, cell: Cells, was: Cells)
    requires cell.Keys == (set p | p in procs) && Reads(procs, was) && forall p :: p in procs ==> p in was && cell[p] == was[p]
    ensures CellsOf(procs) == cell
  {
    assert forall p :: p in procs ==> Read(p) == was[p];
  }

  lemma LiveStep(cell: Cells, done: seq<Proc>, rest: seq<Proc>)
    requires rest != [] && forall p :: p in rest ==> p in cell
    ensures done + LiveOnes(cell, rest) == (if cell[rest[0]].pid != 0 then done + [rest[0]] else done) + LiveOnes(cell, rest[1..])
  {
    assert [] + LiveOnes(cell, rest[1..]) == LiveOnes(cell, rest[1..]);
    Assoc(done, [rest[0]], LiveOnes(cell, rest[1..]));
  }

  lemma LiveNone(cell: Cells, done: seq<Proc>)
    ensures done + LiveOnes(cell, []) == done
  {
  }

  class Csh {
    const shell: Shell
    const dirs: Dirs

    ghost predicate Valid()
      reads shell, shell.proclist, shell.procs, dirs, dirs.ring, dirs.held
    {
      && shell.Valid() && dirs.Valid()
      && Counted(shell.procs, dirs.Counts()) && Homed(shell.procs, shell.ring.Keys)
    }

    lemma Pieces()
      requires Valid()
      ensures shell.Valid() && dirs.Valid() && Counted(shell.procs, dirs.Counts()) && Homed(shell.procs, shell.ring.Keys)
    {
    }

    lemma Whole()
      requires shell.Valid() && dirs.Valid() && Counted(shell.procs, dirs.Counts()) && Homed(shell.procs, shell.ring.Keys)
      ensures Valid()
    {
    }

    constructor (name: string)
      ensures Valid() && shell.procs == [] && dirs.Stack() == [dirs.dcwd] && dirs.dcwd.di_name == name
      ensures fresh(shell) && fresh(shell.proclist) && fresh(dirs) && fresh(dirs.held)
    {
      shell := new Shell();
      dirs := new Dirs(name);
      new;
      assert Users(shell.procs, dirs.dhead) == {} && Users(shell.procs, dirs.dcwd) == {};
    }

    /** dochngd */
    method Dochngd(arg: Arg, ok: bool, followed: Followed) returns (r: Report)
      requires Valid()
      modifies dirs`dcwd, dirs`ring, dirs`held, dirs.ring`di_next, dirs.ring`di_prev
      ensures Valid() && forall d :: d in dirs.held ==> d in old(dirs.held) || fresh(d)
      ensures old(dirs.Stack()) != []
      ensures r == if Numbered(arg) && arg.n >= |old(dirs.Stack())| then Deep
                   else if (if Numbered(arg) then !ok else followed.Nowhere?) then System else Report.Done
      ensures r != Report.Done ==> dirs.Stack() == old(dirs.Stack()) && dirs.Counts() == old(dirs.Counts())
      ensures r == Report.Done && Numbered(arg) ==>
        && dirs.Stack() == old(dirs.Stack())[arg.n..] + old(dirs.Stack())[1..arg.n]
        && dirs.Counts() == Dropped(old(dirs.Counts()), old(dirs.dcwd))
      ensures r == Report.Done && !Numbered(arg) ==>
        && fresh(dirs.dcwd) && dirs.dcwd.di_name == followed.name && dirs.Stack() == [dirs.dcwd] + old(dirs.Stack())[1..]
        && dirs.Counts() == Dropped(old(dirs.Counts())[dirs.dcwd := 0], old(dirs.dcwd))
    {
      hide Dirs.Valid, Shell.Valid, Counted;
      dirs.CwdHeld();
      dirs.KeysHeld();
      ghost var was, cwd := dirs.Counts(), dirs.dcwd;
      r := dirs.Dochngd(arg, ok, followed);
      dirs.KeysHeld();
      if r == Report.Done {
        Forget(was, dirs.dcwd, cwd, Numbered(arg));
      }
    }

    /** A new record is held, if any, and another one given up. */
    lemma Forget(was: map<Dir, int>, x: Dir, d: Dir, numbered: bool)
      requires Counted(shell.procs, was) && d in was && (!numbered ==> x !in was)
      ensures Counted(shell.procs, Dropped(if numbered then was else was[x := 0], d))
    {
      if !numbered {
        NewCounted(shell.procs, was, x);
      }
      DroppedCounted(shell.procs, if numbered then was else was[x := 0], d);
    }

    /** dopushd */
    method Dopushd(arg: Arg, ok: bool, followed: Followed) returns (r: Report)
      requires Valid()
      modifies dirs`dcwd, dirs`ring, dirs`held, dirs.ring`di_next, dirs.ring`di_prev
      ensures Valid() && forall d :: d in dirs.held ==> d in old(dirs.held) || fresh(d)
      ensures old(dirs.Stack()) != []
      ensures r != Report.Done ==> dirs.Stack() == old(dirs.Stack()) && dirs.Counts() == old(dirs.Counts())
      ensures r == Report.Done && arg.NoArg? ==> |old(dirs.Stack())| > 1 && dirs.Stack() == old([dirs.Stack()[1], dirs.Stack()[0]] + dirs.Stack()[2..])
      ensures r == Report.Done && Numbered(arg) ==> arg.n < |old(dirs.Stack())| && dirs.Stack() == old(dirs.Stack()[arg.n..] + dirs.Stack()[..arg.n])
      ensures r == Report.Done && !arg.NoArg? && !Numbered(arg) ==>
        followed.At? && dirs.dcwd.di_name == followed.name && dirs.Stack() == [dirs.dcwd] + old(dirs.Stack())
    {
      hide Dirs.Valid, Shell.Valid, Counted;
      dirs.KeysHeld();
      ghost var was := dirs.Counts();
      r := dirs.Dopushd(arg, ok, followed);
      dirs.KeysHeld();
      if r == Report.Done && !arg.NoArg? && !Numbered(arg) {
        NewCounted(shell.procs, was, dirs.dcwd);
      }
    }

    /** dopopd */
    method Dopopd(arg: Arg, ok: bool) returns (r: Report)
      requires Valid()
      modifies dirs`dcwd, dirs`ring, dirs`held, dirs.ring`di_next, dirs.ring`di_prev
      ensures Valid() && dirs.held <= old(dirs.held) && old(dirs.Stack()) != []
      ensures r != Report.Done ==> dirs.Stack() == old(dirs.Stack()) && dirs.Counts() == old(dirs.Counts())
      ensures r == Report.Done && arg.NoArg? ==> dirs.Stack() == old(dirs.Stack())[1..] && dirs.Counts() == Dropped(old(dirs.Counts()), old(dirs.dcwd))
      ensures r == Report.Done && Numbered(arg) ==> var s, n := old(dirs.Stack()), arg.n;
        n < |s| && dirs.Stack() == s[..n] + s[n + 1..] && s[n] in old(dirs.Counts()) && dirs.Counts() == Dropped(old(dirs.Counts()), s[n])
    {
      hide Dirs.Valid, Shell.Valid, Counted;
      dirs.CwdHeld();
      dirs.KeysHeld();
      ghost var was, s := dirs.Counts(), dirs.Stack();
      ghost var cwd := dirs.dcwd;
      r := dirs.Dopopd(arg, ok);
      dirs.KeysHeld();
      if r == Report.Done {
        DroppedCounted(shell.procs, was, if Numbered(arg) then s[arg.n] else cwd);
      }
    }

    /** palloc, for the child pid of fork */
    method Palloc(pid: nat, ampersand: bool) returns (pp: Proc)
      requires Valid() && FreshPid(CellsOf(shell.procs), pid)
      modifies shell, shell.proclist`p_next, shell.procs`p_friends, dirs.dcwd`di_count
      ensures Valid() && fresh(pp) && shell.procs == [pp] + old(shell.procs)
      ensures var flags := Flags(true, false, false, !ampersand, false, false);
        if old(shell.pcurrjob) != null then
          && shell.Abs() == old(shell.Abs()).(t := JoinedTable(old(shell.TableOf()), old(shell.pcurrjob), pp, pid, flags))
          && dirs.Counts() == old(dirs.Counts())
        else
          && NewIndex(old(shell.Abs()), pp.p_index) && shell.Abs() == Started(old(shell.Abs()), pp, pid, flags, dirs.dcwd, pp.p_index)
          && dirs.dcwd in old(dirs.Counts()) && dirs.Counts() == old(dirs.Counts())[dirs.dcwd := old(dirs.Counts())[dirs.dcwd] + 1]
      ensures LiveJobs(shell.TableOf()) == old(LiveJobs(shell.TableOf())) + (if old(shell.pcurrjob) == null then {pp} else {})
      ensures pp.p_cwd == if old(shell.pcurrjob) == null then dirs.dcwd else null
    {
      hide *;
      Pieces();
      dirs.CwdHeld();
      ghost var procs, counts, leaders := shell.procs, dirs.Counts(), shell.ring.Keys;
      ghost var n := if shell.pcurrjob == null then 1 else 0;
      pp := shell.Palloc(pid, ampersand, dirs.dcwd);
      dirs.Referred(n);
      MoreCounted(procs, counts, pp);
      MoreHomed(procs, leaders, pp);
      if n == 0 {
        assert dirs.Counts() == counts && shell.ring.Keys == leaders;
      }
      Whole();
    }

    /** pchild */
    method Pchild(pid: nat, stop: bool, notify: bool) returns (ghost outcome: Outcome)
      requires Valid() && pid != 0
      modifies shell`pcurrent, shell`pprevious, shell`pcurrjob, shell`pmaxindex
      modifies shell.procs`p_index, shell.procs`p_pid, shell.procs`p_flags
      ensures Valid() && Means(outcome, old(shell.Abs()), shell.Abs())
      ensures outcome.Unknown? <==> forall p :: p in shell.procs ==> old(p.p_pid) != pid
      ensures forall p :: p in shell.procs && old(p.p_pid) == pid ==> outcome == Judged(old(shell.TableOf()), p, stop, notify)
    {
      hide *;
      Pieces();
      outcome := shell.Pchild(pid, stop, notify);
      Whole();
    }

    /** pflush */
    method Pflush(pp: Proc)
      requires Valid() && pp in shell.procs
      modifies shell`pcurrent, shell`pprevious, shell`pcurrjob, shell`pmaxindex
      modifies shell.procs`p_index, shell.procs`p_pid, shell.procs`p_flags
      ensures Valid()
    {
      hide *;
      Pieces();
      shell.Pflush(pp);
      Whole();
    }

    /** Takes pp out of the list, where done comes before it and rest after it. */
    method Unchain(fp: Proc, pp: Proc, ghost done: seq<Proc>, ghost rest: seq<Proc>)
      requires Chained(shell.proclist, done + [pp] + rest) && Distinct(done + [pp] + rest)
      requires fp == if done == [] then shell.proclist else done[|done| - 1]
      modifies fp`p_next
      ensures Chained(shell.proclist, done + rest) && Distinct(done + rest)
    {
      ghost var procs := done + [pp] + rest;
      DistinctLess(done, pp, rest);
      hide Distinct;
      assert pp == procs[|done|];
      fp.p_next := pp.p_next;
      ghost var less := done + rest;
      assert less != [] ==> less[0] == if done == [] then rest[0] else procs[0];
      assert old(procs[|done|].p_next) == if rest == [] then null else rest[0];
      assert forall p :: p in less ==> p in procs;
      forall i | 0 <= i < |less| ensures less[i].p_next == if i + 1 < |less| then less[i + 1] else null {
        var m := if i < |done| then i else i + 1;
        assert less[i] == procs[m] && (i + 1 < |less| ==> less[i + 1] == procs[if i + 1 < |done| then i + 1 else i + 2]);
        assert old(procs[m].p_next) == if m + 1 < |procs| then procs[m + 1] else null;
        Different(procs, m, if |done| == 0 then m else |done| - 1);
        assert less[i] in procs;
      }
      assert forall i {:trigger less[i].p_next} :: 0 <= i < |less| ==> less[i].p_next == if i + 1 < |less| then less[i + 1] else null;
    }

    /** pwait, for a flushed process: it leaves the list, and its directory loses a reference. */
    method Reap(fp: Proc, pp: Proc, ghost done: seq<Proc>, ghost rest: seq<Proc>, ghost cell: Cells)
      requires shell.procs == done + [pp] + rest && Chained(shell.proclist, shell.procs) && Distinct(shell.procs)
      requires fp == if done == [] then shell.proclist else done[|done| - 1]
      requires dirs.Valid() && Counted(shell.procs, dirs.Counts()) && Reads(shell.procs, cell)
      modifies shell`procs, fp`p_next, dirs`held, dirs.held`di_count, dirs.held`di_next, dirs.held`di_prev
      ensures shell.procs == done + rest && Chained(shell.proclist, shell.procs) && Distinct(shell.procs)
      ensures dirs.Valid() && Counted(shell.procs, dirs.Counts()) && dirs.held <= old(dirs.held) && (forall q :: q in shell.procs ==> q in old(shell.procs))
      ensures Reads(shell.procs, cell)
    {
      hide Dirs.Valid, Chained, Counted, Dropped, Distinct;
      ghost var counts, procs := dirs.Counts(), shell.procs;
      DistinctLess(done, pp, rest);
      assert procs == done + [pp] + rest && forall q :: q in done + rest <==> q in procs && q != pp;
      LessCounted(procs, done + rest, counts, pp);
      Unchain(fp, pp, done, rest);
      shell.procs := done + rest;
      if pp.p_cwd != null {
        ghost var c := counts[pp.p_cwd := counts[pp.p_cwd] - 1];
        DroppedCounted(shell.procs, c, pp.p_cwd);
        dirs.Release(pp.p_cwd);
      }
      forall q | q in shell.procs ensures q in cell && Read(q) == cell[q] {
        assert old(Read(q)) == cell[q];
      }
    }

    /** The loop of pwait over the list. */
    method Sweep(ghost cell: Cells)
      requires Chained(shell.proclist, shell.procs) && Distinct(shell.procs) && dirs.Valid()
      requires Counted(shell.procs, dirs.Counts()) && Reads(shell.procs, cell)
      modifies shell`procs, shell.proclist`p_next, shell.procs`p_next, dirs`held
      modifies dirs.held`di_count, dirs.held`di_next, dirs.held`di_prev
      ensures shell.procs == LiveOnes(cell, old(shell.procs)) && Chained(shell.proclist, shell.procs) && dirs.Valid()
      ensures Counted(shell.procs, dirs.Counts()) && Reads(shell.procs, cell)
      ensures dirs.held <= old(dirs.held) && forall p :: p in shell.procs ==> p in old(shell.procs)
    {
      hide *;
      ghost var procs := shell.procs;
      ReadsIn(procs, cell);
      ghost var done: seq<Proc>, rest := [], shell.procs;
      var fp := shell.proclist;
      assert done + rest == procs;
      ChainedAt(shell.proclist, fp, done, rest);
      var pp := fp.p_next;
      while pp != null
        invariant shell.procs == done + rest && Chained(shell.proclist, shell.procs) && Distinct(shell.procs)
        invariant fp == (if done == [] then shell.proclist else done[|done| - 1]) && pp == if rest == [] then null else rest[0]
        invariant dirs.Valid() && dirs.held <= old(dirs.held) && forall q :: q in shell.procs ==> q in procs
        invariant Counted(shell.procs, dirs.Counts()) && Reads(shell.procs, cell)
        invariant (forall q :: q in rest ==> q in cell) && LiveOnes(cell, procs) == done + LiveOnes(cell, rest)
        decreases |rest|
      {
        ghost var more := rest[1..];
        assert done + rest == done + [pp] + more;
        ReadsIn(shell.procs, cell);
        LiveStep(cell, done, rest);
        assert pp in shell.procs;
        ReadsAt(shell.procs, cell, pp);
        if pp.p_pid == 0 {
          assert fp == shell.proclist || fp in shell.procs;
          Reap(fp, pp, done, more, cell);
        } else {
          done, fp := done + [pp], pp;
        }
        rest := more;
        assert shell.procs == done + rest;
        ChainedAt(shell.proclist, fp, done, rest);
        pp := fp.p_next;
      }
      ReadsIn(shell.procs, cell);
      LiveNone(cell, done);
      assert rest == [] && done + rest == done;
    }

    /** The first loop of pwait. */
    method Pwait()
      requires Valid()
      modifies shell`procs, shell`lead, shell`ring, shell.proclist`p_next, shell.procs`p_next, dirs`held
      modifies dirs.held`di_count, dirs.held`di_next, dirs.held`di_prev
      ensures Valid()
      ensures shell.Abs() == old(shell.Abs()).(t := Reaped(old(shell.TableOf())))
      ensures dirs.held <= old(dirs.held) && forall p :: p in shell.procs ==> p in old(shell.procs)
    {
      hide *;
      Pieces();
      ghost var j, leaders := shell.Abs(), shell.ring.Keys;
      shell.Parts();
      InvList(j);
      ReapedKeeps(j);
      ReapedParts(j.t);
      AsRead(shell.procs);
      HomedRead(shell.procs, j.t.cell, leaders);
      KnowsFewer(j.t.cell, leaders, Reaped(j.t).ring.Keys);
      Sweep(j.t.cell);
      shell.lead, shell.ring := Reaped(j.t).lead, Reaped(j.t).ring;
      assert dirs.Valid() && Chained(shell.proclist, shell.procs) && Counted(shell.procs, dirs.Counts());
      CellsRead(shell.procs, Reaped(j.t).cell, j.t.cell);
      shell.Assembled(j.(t := Reaped(j.t)));
      HomedRead(shell.procs, j.t.cell, shell.ring.Keys);
      Whole();
    }

    /** pstart, for the job of pp */
    method Pstart(pp: Proc, foregnd: bool)
      requires Valid() && pp in shell.procs && pp.p_pid != 0
      modifies shell`pcurrent, shell`pprevious, shell.procs`p_flags
      ensures Valid()
    {
      hide *;
      Pieces();
      shell.LiveIn(pp);
      var l := shell.Leader(pp);
      shell.Pstart(l, foregnd);
      Whole();
    }

    /** pendjob */
    method Pendjob()
      requires Valid()
      modifies shell`pcurrjob
      ensures Valid()
    {
      hide *;
      Pieces();
      shell.Pendjob();
      Whole();
    }

    lemma NoPid(pid: nat)
      requires Chained(shell.proclist, shell.procs) && pid != 0 && forall p :: p in shell.procs ==> p.p_pid != pid
      ensures FreshPid(CellsOf(shell.procs), pid)
    {
    }

    /** One event; one that cannot be at this point, for want of the process or because the pid is
        still in use, does nothing. */
    method Do(e: Event)
      requires Valid()
      modifies shell, shell.proclist, shell.procs, dirs, dirs.held
      ensures Valid()
      ensures (forall p :: p in shell.procs ==> p in old(shell.procs) || fresh(p)) && forall d :: d in dirs.held ==> d in old(dirs.held) || fresh(d)
    {
      hide *;
      Pieces();
      shell.Parts();
      dirs.RingHeld();
      match e
      case Fork(pid, ampersand) =>
        var pp := shell.FindPid(pid);
        if pp == null && pid != 0 {
          NoPid(pid);
          var p := Palloc(pid, ampersand);
        }
      case Child(pid, stop, notify) =>
        if pid != 0 {
          ghost var outcome := Pchild(pid, stop, notify);
        }
      case Start(pid, foregnd) =>
        var pp := shell.FindPid(pid);
        if pp != null && pid != 0 {
          Pstart(pp, foregnd);
        }
      case Flush(pid) =>
        var pp := shell.FindPid(pid);
        if pp != null {
          Pflush(pp);
        }
      case EndJob => Pendjob();
      case Wait => Pwait();
      case Cd(arg, ok, followed) => var r := Dochngd(arg, ok, followed);
      case Pushd(arg, ok, followed) => var r := Dopushd(arg, ok, followed);
      case Popd(arg, ok) => var r := Dopopd(arg, ok);
    }

    /** Any run, from any state that is right. */
    method Run(es: seq<Event>)
      requires Valid()
      modifies shell, shell.proclist, shell.procs, dirs, dirs.held
      ensures Valid()
    {
      hide *;
      for i := 0 to |es|
        invariant Valid()
        invariant (forall p :: p in shell.procs ==> p in old(shell.procs) || fresh(p)) && forall d :: d in dirs.held ==> d in old(dirs.held) || fresh(d)
      {
        assert forall k :: 0 <= k < |shell.procs| ==> shell.procs[k] in old(shell.procs) || fresh(shell.procs[k]);
        Do(es[i]);
      }
    }
  }

  /** What may happen to the shell: a fork, a change of status of a child, the steps of the shell that
      start, flush, end and reap jobs, and the directory commands. */
  datatype Event =
    | Fork(pid: nat, ampersand: bool)
    | Child(pid: nat, stop: bool, notify: bool)
    | Start(pid: nat, foregnd: bool)
    | Flush(pid: nat)
    | EndJob
    | Wait
    | Cd(arg: Arg, ok: bool, followed: Followed)
    | Pushd(arg: Arg, ok: bool, followed: Followed)
    | Popd(arg: Arg, ok: bool)

  /** Everything the invariant says holds after every run from the start of the shell. */
  method Session(name: string, es: seq<Event>) returns (c: Csh)
    ensures fresh(c) && c.Valid()
  {
    c := new Csh(name);
    c.Run(es);
  }
}
