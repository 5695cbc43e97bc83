/** src/bin/ed/undo.c: unwinding the undo stack. */
module EdUndo {
  import opened EdLinks
  import opened EdMoves
  import opened EdLog
  import opened Seqs

  /** The lines of an insert that has been undone, or of a delete, still know their place. */
  ghost predicate Held(c: Change)
    requires WellFormed(c)
    reads Passing(c)
  {
    c.Mov? || Detached(c.a, c.seg, c.b)
  }

  /** The lines whose links a change writes are in its rings. */
  lemma Ends(c: Change)
    requires WellFormed(c)
    ensures var all := Before(c) + After(c);
      && Last(c.a) in all && Next(c.a, c.b) in all
      && (!c.Mov? ==> c.seg[0] in all && Last(c.seg) in all)
      && (c.Mov? ==> c.x[0] in all && Last(c.x) in all && c.y[0] in all && Last(c.y) in all)
  {
    assert Last(c.a) in c.a;
    assert c.b != [] ==> c.b[0] in c.b;
    if c.Mov? {
      assert c.x[0] in c.x && Last(c.x) in c.x && c.y[0] in c.y && Last(c.y) in c.y;
    } else {
      assert c.seg[0] in c.seg && Last(c.seg) in c.seg;
    }
  }

  /** One turn of the loop of pop_undo_stack: the REQUEs of the entry or the pair of entries on
      top (above, and for a move also below) take the ring back over the change. */
  method UndoOne(below: Undo, above: Undo, ghost c: Change)
    requires WellFormed(c) && Ring(After(c)) && Distinct(Before(c))
    requires Norm(above) == Entries(c)[|Entries(c)| - 1]
    requires c.Mov? ==> Norm(below) == Entries(c)[0]
    requires c.Del? ==> Held(c)
    modifies (Before(c) + After(c))`q_forw, (Before(c) + After(c))`q_back
    ensures Ring(Before(c))
    ensures c.Ins? ==> Held(c)
  {
    Ends(c);
    match above.kind {
      case UADD =>
        RingOfThree(c.a, c.seg, c.b);
        Cut(above.h.q_back, above.t.q_forw, c.a, c.seg, c.b);
      case UDEL =>
        Paste(above.h, above.t, c.a, c.seg, c.b);
      case UMOV =>
        MoveBack(below.h, below.t, above.h, above.t, c.a, c.x, c.y, c.b, c.up);
      case VMOV =>
        MoveBack(below.h, below.t, above.h, above.t, c.a, c.x, c.y, c.b, c.up);
    }
  }

  /** The lines of all the rings. */
  ghost function Lines(rings: seq<seq<Line>>): set<Line> {
    set k, x | 0 <= k < |rings| && x in rings[k] :: x
  }

  ghost function LogLines(log: Log): set<Line> {
    set j, x | 0 <= j < |log| && x in Passing(log[j]) :: x
  }

  /** What holds of the detached lines when the changes from k on have been undone. */
  ghost predicate HeldAt(log: Log, k: nat)
    requires AllWellFormed(log)
    reads LogLines(log)
  {
    forall j {:trigger log[j]} :: 0 <= j < |log| ==> (if j < k then log[j].Del? else log[j].Ins?) ==>
      assert forall x :: x in Passing(log[j]) ==> x in LogLines(log);
      Held(log[j])
  }

  /** The change k - 1 has nothing to do with the lines that other changes put aside. */
  lemma Aside(rings: seq<seq<Line>>, log: Log, k: nat, j: nat)
    requires Leads(rings, log) && 0 < k <= |log| && j < |log| && j != k - 1
    requires if j < k then log[j].Del? else log[j].Ins?
    ensures forall x :: x in Passing(log[j]) ==> x !in Before(log[k - 1]) + After(log[k - 1])
  {
    var c := log[k - 1];
    assert Before(c) == rings[k - 1] && After(c) == rings[k];
    assert Apart(log[j].seg, rings[k - 1]);
    assert Apart(log[j].seg, rings[k]);
  }

  method Step(below: Undo, above: Undo, ghost rings: seq<seq<Line>>, ghost log: Log, ghost k: nat)
    requires Leads(rings, log) && 0 < k <= |log| && Ring(rings[k]) && HeldAt(log, k)
    requires Norm(above) == Entries(log[k - 1])[|Entries(log[k - 1])| - 1]
    requires log[k - 1].Mov? ==> Norm(below) == Entries(log[k - 1])[0]
    modifies Lines(rings)`q_forw, Lines(rings)`q_back
    ensures Ring(rings[k - 1]) && HeldAt(log, k - 1)
  {
    hide Before, After, Entries, Norm, Ring, Distinct, Apart;
    ghost var c := log[k - 1];
    assert Before(c) == rings[k - 1] && After(c) == rings[k];
    assert Distinct(rings[k - 1]);
    assert forall x :: x in Before(c) + After(c) ==> x in Lines(rings);
    UndoOne(below, above, c);
    forall j | 0 <= j < |log| && (if j < k - 1 then log[j].Del? else log[j].Ins?) ensures Held(log[j]) {
      if j != k - 1 {
        Aside(rings, log, k, j);
        assert old(Held(log[j]));
        var s := log[j].seg;
        assert forall i :: 0 <= i < |s| ==> s[i] in Passing(log[j]);
        assert forall i :: 0 <= i < |s| ==> s[i].q_forw == old(s[i].q_forw);
        assert forall i :: 0 <= i < |s| ==> s[i].q_back == old(s[i].q_back);
      }
    }
  }

  /** The first n entries of the stack belong to the first k changes of the log. */
  ghost predicate Belongs(us: seq<Undo>, n: nat, log: Log, k: nat) {
    && AllWellFormed(log) && k <= |log| && n <= |us| && n == |Flat(log[..k])|
    && forall i {:trigger us[i]} :: 0 <= i < n ==> Norm(us[i]) == Flat(log[..k])[i]
  }

  /** What is on top of the stack. */
  lemma TopBelongs(us: seq<Undo>, n: nat, log: Log, k: nat)
    requires Belongs(us, n, log, k)
    ensures n == 0 <==> k == 0
    ensures k > 0 ==> var es := Entries(log[k - 1]);
      && n >= |es| && (log[k - 1].Mov? ==> n >= 2) && Belongs(us, n - |es|, log, k - 1)
      && Norm(us[n - 1]) == es[|es| - 1]
      && (log[k - 1].Mov? <==> us[n - 1].kind in {UMOV, VMOV})
      && (log[k - 1].Mov? ==> Norm(us[n - 2]) == es[0])
  {
    if k > 0 {
      var es := Entries(log[k - 1]);
      assert log[..k][..k - 1] == log[..k - 1];
      assert Flat(log[..k]) == Flat(log[..k - 1]) + es;
      assert Flat(log[..k])[n - 1] == es[|es| - 1];
      assert log[k - 1].Mov? ==> Flat(log[..k])[n - 2] == es[0];
    }
  }

  /** From n on, us is was with its entries turned over. */
  ghost predicate Turned(us: seq<Undo>, was: seq<Undo>, n: nat) {
    && |us| == |was| && n <= |us| && us[..n] == was[..n]
    && forall i {:trigger us[i]} :: n <= i < |us| ==> Norm(us[i]) == Flipped(Norm(was[i]))
  }

  /** Turning over the entry at n', and leaving the upper one of a pair of moves as it is. */
  lemma TurnOver(us: seq<Undo>, was: seq<Undo>, n: nat, n': nat, log: Log, k: nat)
    requires Turned(us, was, n) && n' < n && (n' == n - 1 || (n' == n - 2 && us[n - 1].kind in {UMOV, VMOV}))
    requires k <= |log| && Belongs(us, n', log, k)
    ensures var us' := us[n' := us[n'].(kind := us[n'].kind.Flip())];
      Turned(us', was, n') && Belongs(us', n', log, k)
  {
    assert us[n'] == us[..n][n'] && was[n'] == was[..n][n'];
    assert us[n - 1] == us[..n][n - 1] && was[n - 1] == was[..n][n - 1];
    assert us[..n'] == us[..n][..n'] && was[..n'] == was[..n][..n'];
  }

  /** The body of the first loop of pop_undo_stack: one entry, or a pair of move entries. */
  method UnwindOne(us0: seq<Undo>, n0: nat, ghost ustack: seq<Undo>, ghost rings: seq<seq<Line>>, ghost log: Log, ghost k: nat)
    returns (us: seq<Undo>, n: nat)
    requires n0 > 0 && k <= |log| && Belongs(us0, n0, log, k) && Turned(us0, ustack, n0)
    requires Leads(rings, log) && Ring(rings[k]) && HeldAt(log, k)
    modifies Lines(rings)`q_forw, Lines(rings)`q_back
    ensures k > 0 && n < n0 && Belongs(us, n, log, k - 1) && Turned(us, ustack, n)
    ensures Ring(rings[k - 1]) && HeldAt(log, k - 1)
  {
    TopBelongs(us0, n0, log, k);
    n := n0 - 1;
    var above := us0[n];
    var below := above;
    if above.kind == UMOV || above.kind == VMOV {
      n := n - 1;
      below := us0[n];
    }
    TurnOver(us0, ustack, n0, n, log, k - 1);
    us := us0[n := us0[n].(kind := us0[n].kind.Flip())];
    Step(below, above, rings, log, k);
  }

  /** The first loop of pop_undo_stack. It takes the ring back to the first of the rings and turns
      the entries over. */
  method Unwind(ustack: seq<Undo>, ghost rings: seq<seq<Line>>, ghost log: Log) returns (us: seq<Undo>)
    requires Leads(rings, log) && Ring(rings[|log|]) && HeldAt(log, |log|)
    requires Belongs(ustack, |ustack|, log, |log|)
    modifies Lines(rings)`q_forw, Lines(rings)`q_back
    ensures Ring(rings[0]) && HeldAt(log, 0)
    ensures Turned(us, ustack, 0)
  {
    us := ustack;
    var n := |us|;
    ghost var k: nat := |log|;
    while n > 0
      invariant 0 <= n <= |us| && k <= |log|
      invariant Belongs(us, n, log, k) && Turned(us, ustack, n)
      invariant Ring(rings[k]) && HeldAt(log, k)
    {
      us, n := UnwindOne(us, n, ustack, rings, log, k);
      k := k - 1;
    }
    TopBelongs(us, n, log, k);
  }

  /** The second loop, which swaps entries from both ends of the stack towards its middle. */
  method Reversed(us0: seq<Undo>) returns (us: seq<Undo>)
    ensures |us| == |us0| && forall i :: 0 <= i < |us| ==> us[i] == us0[|us0| - 1 - i]
  {
    us := us0;
    var n := |us|;
    while n > (|us0| + 1) / 2
      invariant |us| == |us0| && (|us0| + 1) / 2 <= n <= |us0|
      invariant forall i :: n <= i < |us0| ==> us[i] == us0[|us0| - 1 - i] && us[|us0| - 1 - i] == us0[i]
      invariant forall i :: |us0| - n <= i < n ==> us[i] == us0[i]
    {
      n := n - 1;
      us := us[n := us[|us0| - 1 - n]][|us0| - 1 - n := us[n]];
    }
  }

  lemma StackOfUndone(was: seq<Undo>, us: seq<Undo>, vs: seq<Undo>, log: Log)
    requires Belongs(was, |was|, log, |log|) && Turned(us, was, 0)
    requires |vs| == |us| && forall i :: 0 <= i < |vs| ==> vs[i] == us[|us| - 1 - i]
    ensures Belongs(vs, |vs|, Undone(log), |log|)
  {
    FlatUndone(log);
    assert log[..|log|] == log && Undone(log)[..|log|] == Undone(log);
    forall i | 0 <= i < |vs| ensures Norm(vs[i]) == Flat(Undone(log))[i] {
      assert vs[i] == us[|us| - 1 - i];
    }
  }

  lemma HeldOfUndone(log: Log)
    requires AllWellFormed(log) && HeldAt(log, 0)
    ensures AllWellFormed(Undone(log)) && HeldAt(Undone(log), |log|)
  {
    UndoneWellFormed(log);
    forall j | 0 <= j < |log| && Undone(log)[j].Del? ensures Held(Undone(log)[j]) {
      UndoneAt(log, j);
      var c := log[|log| - 1 - j];
      assert c.Ins?;
      assert Held(c);
    }
  }

  /** Logs and rings name existing lines only. */
  lemma LinesExist(rings: seq<seq<Line>>, log: Log)
    ensures forall y :: y in Lines(rings) ==> allocated(y)
    ensures forall y :: y in LogLines(log) ==> allocated(y)
  {
    forall y | y in LogLines(log) ensures allocated(y) {
      var j :| 0 <= j < |log| && y in Passing(log[j]);
      var c := log[j];
    }
  }
}
