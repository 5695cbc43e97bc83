/** src/bin/ed: whole sessions. What the user sees of them is the buffer as a sequence of texts, the
    current address, and one earlier state that u goes back to. */
module EdHistory {
  import opened EdLinks
  import opened EdLog
  import opened EdUndo
  import opened EdBuffer
  import opened EdText
  import opened EdLaws
  import opened EdSession
  import opened EdGlobal

  /** What a user may do: a command, a global command over a range of lines, where hit tells which of
      them match and scripts what the command list does for each, or u (TakeBack). */
  datatype Step =
    | Do(c: Command)
    | Everywhere(first: int, second: int, hit: seq<bool>, scripts: seq<seq<Command>>)
    | TakeBack

  /** The texts, the head first, with the current address; and what u would bring back. */
  datatype State = State(texts: seq<string>, addr: int)
  datatype Memory = Memory(now: State, saved: Option<State>)
  datatype Option<T> = None | Some(value: T)

  const EMPTY := Memory(State([""], 0), None)

  ghost predicate Good(s: State) {
    0 <= s.addr < |s.texts|
  }

  /** The global commands that are let through. */
  predicate Fit(s: Step, addr_last: int)
    requires s.Everywhere?
  {
    1 <= s.first <= s.second <= addr_last && |s.hit| == s.second - s.first + 1
  }

  /** What a step may do to the memory. A command with an address out of range changes nothing, not
      even what u brings back; every other command saves the state that it finds; and u exchanges
      the two states, if there is a saved one. */
  ghost predicate Next(s: Step, m: Memory, m': Memory)
    requires Good(m.now)
  {
    match s
    case Do(c) =>
      exists now: State, ok: bool :: Obeys(c, m.now.texts, m.now.addr, now.texts, now.addr, ok) && m' == if ok then Memory(now, Some(m.now)) else m
    case Everywhere(first, second, hit, scripts) =>
      if Fit(s, |m.now.texts| - 1) then
        m'.saved == Some(m.now) && exists ran: seq<Command>, n: nat, r: Status :: n <= |hit| && Commanded(ran, scripts, n, m.now.texts, m'.now.texts, r)
      else m' == m
    case TakeBack => if m.saved.Some? then m' == Memory(m.saved.value, Some(m.now)) else m' == m
  }

  /** The editor holds the memory. */
  ghost predicate Holds(e: Editor, m: Memory)
    reads e, e.ring, LogLines(e.log), e.sf
  {
    && Ready(e) && !e.isglobal && Good(m.now) && m.now == State(TextsOf(e), e.current_addr)
    && match m.saved
       case None => e.u_current_addr == e.u_addr_last == -1
       case Some(s) =>
         && Good(s) && |e.rings| > 0 && Texts(e.sf.file, e.rings[0]) == s.texts
         && e.u_current_addr == s.addr && e.u_addr_last == |s.texts| - 1
  }

  lemma HoldsSays(e: Editor, m: Memory)
    ensures Holds(e, m) <==>
      && Ready(e) && !e.isglobal && Good(m.now) && m.now == State(TextsOf(e), e.current_addr)
      && (m.saved.None? ==> e.u_current_addr == e.u_addr_last == -1)
      && (m.saved.Some? ==>
        && Good(m.saved.value) && |e.rings| > 0 && Texts(e.sf.file, e.rings[0]) == m.saved.value.texts
        && e.u_current_addr == m.saved.value.addr && e.u_addr_last == |m.saved.value.texts| - 1)
  {
  }

  lemma GoodSays(s: State)
    ensures Good(s) <==> 0 <= s.addr < |s.texts|
  {
  }

  /** The buffer that was there is the first of the rings from now on. */
  lemma SavedTexts(file: string, file': string, r: seq<Line>, rings: seq<seq<Line>>)
    requires InFile(file, [r]) && file <= file' && [r] <= rings
    ensures |rings| > 0 && rings[0] == r && Texts(file', rings[0]) == Texts(file, r)
  {
    CurrentInFile([r], 0, file);
    TextsLater(file, file', r);
  }

  lemma NextDo(c: Command, m: Memory, m': Memory)
    requires Good(m.now)
    requires m' == if InRange(c, |m.now.texts| - 1)
      then Memory(State(Edited(c, m.now.texts), Where(c, |m.now.texts| - 1, m.now.addr)), Some(m.now)) else m
    ensures Next(Do(c), m, m')
  {
    var ts, cur := m.now.texts, m.now.addr;
    EditedObeys(c, ts, cur);
    hide Obeys, Edited, Where, InRange;
    assert Obeys(c, ts, cur, State(Edited(c, ts), Where(c, |ts| - 1, cur)).texts, State(Edited(c, ts), Where(c, |ts| - 1, cur)).addr, InRange(c, |ts| - 1));
  }

  lemma NextUndo(m: Memory, m': Memory)
    requires Good(m.now)
    ensures Next(TakeBack, m, m') <==> if m.saved.Some? then m' == Memory(m.saved.value, Some(m.now)) else m' == m
  {
  }

  lemma NextEverywhere(s: Step, m: Memory, m': Memory, ran: seq<Command>, n: nat, r: Status)
    requires Good(m.now) && s.Everywhere?
    ensures !Fit(s, |m.now.texts| - 1) ==> (Next(s, m, m') <==> m' == m)
    ensures Fit(s, |m.now.texts| - 1) && n <= |s.hit| && m'.saved == Some(m.now) && Commanded(ran, s.scripts, n, m.now.texts, m'.now.texts, r) ==> Next(s, m, m')
  {
  }

  /** clear_undo_stack. */
  method Clear(e: Editor)
    requires Ready(e)
    modifies e`ustack, e`u_current_addr, e`u_addr_last, e`rings, e`log
    ensures Ready(e) && e.rings == [e.ring] && TextsOf(e) == old(TextsOf(e)) && InFile(e.sf.file, [e.ring])
    ensures e.u_current_addr == e.current_addr && e.u_addr_last == e.addr_last
    ensures forall x :: x in Lines(e.rings) ==> x in Lines(old(e.rings))
  {
    hide *;
    RingIn(e);
    CurrentIn(e);
    StartGlobal(e);
    InRing(e.ring, Lines(old(e.rings)));
  }

  lemma InRing(r: seq<Line>, lines: set<Line>)
    requires forall i {:trigger r[i]} :: 0 <= i < |r| ==> r[i] in lines
    ensures forall x :: x in r ==> x in lines
  {
  }

  /** A command outside a global one. */
  method DoStep(e: Editor, c: Command, ghost m: Memory) returns (ghost m': Memory)
    requires Holds(e, m)
    modifies e, e.sf, Lines(e.rings)`q_forw, Lines(e.rings)`q_back
    ensures Holds(e, m') && Good(m.now) && Next(Do(c), m, m')
    ensures forall x :: x in Lines(e.rings) ==> x in Lines(old(e.rings)) || fresh(x)
  {
    hide *;
    HoldsSays(e, m);
    RingSize(e);
    m' := m;
    var ok := InRange(c, e.addr_last);
    if !ok {
      NextDo(c, m, m);
    } else {
      GoodSays(m.now);
      RingIn(e);
      Clear(e);
      ghost var r, file := e.ring, e.sf.file;
      IsTexts(e);
      RingIn(e);
      var ok' := ExecuteInRange(e, c);
      SavedTexts(file, e.sf.file, r, e.rings);
      m' := Memory(State(TextsOf(e), e.current_addr), Some(m.now));
      GoodSays(m'.now);
      RingSize(e);
      HoldsSays(e, m');
      NextDo(c, m, m');
    }
  }

  lemma LastRing(e: Editor)
    requires Ready(e)
    ensures |e.rings| > 0 && e.rings[|e.rings| - 1] == e.ring && Reverse(e.rings) != [] && Reverse(e.rings)[0] == e.ring
    ensures Lines(Reverse(e.rings)) == Lines(e.rings)
  {
    ReverseTwice(e.rings);
    LinesBack(e.rings);
  }

  /** u. It fails when there is no saved state. */
  method UndoStep(e: Editor, ghost m: Memory) returns (ok: bool, ghost m': Memory)
    requires Holds(e, m)
    modifies e, e.sf, Lines(e.rings)`q_forw, Lines(e.rings)`q_back
    ensures Holds(e, m') && Good(m.now) && Next(TakeBack, m, m') && ok == m.saved.Some?
    ensures forall x :: x in Lines(e.rings) ==> x in Lines(old(e.rings))
  {
    hide *;
    HoldsSays(e, m);
    GoodSays(m.now);
    if m.saved.Some? {
      GoodSays(m.saved.value);
    }
    RingSize(e);
    LastRing(e);
    IsTexts(e);
    ReadyParts(e);
    BackInFile(e.sf.file, e.rings);
    LinesExist(e.rings, e.log);
    ok := e.PopUndoStack();
    m' := if ok then Memory(m.saved.value, Some(m.now)) else m;
    NextUndo(m, m');
    ReadyParts(e);
    IsTexts(e);
    HoldsSays(e, m');
  }

  /** A global command that is let through. isglobal is reset before the next command line. */
  method GlobalStep(e: Editor, s: Step, ghost m: Memory) returns (ghost m': Memory)
    requires Holds(e, m) && s.Everywhere? && Fit(s, e.addr_last)
    modifies e, e.sf, Lines(e.rings)`q_forw, Lines(e.rings)`q_back
    ensures Holds(e, m') && Good(m.now) && Next(s, m, m')
    ensures forall x :: x in Lines(e.rings) ==> x in Lines(old(e.rings)) || fresh(x)
  {
    FitSays(s, e.addr_last);
    hide *;
    HoldsSays(e, m);
    GoodSays(m.now);
    RingSize(e);
    CurrentIn(e);
    RingIn(e);
    InRing(e.ring, Lines(e.rings));
    ghost var r, file, n := e.ring, e.sf.file, |Matching(e.ring, s.first, s.hit)|;
    IsTexts(e);
    MatchingSize(e.ring, s.first, s.hit);
    ghost var lines, ran;
    var status;
    status, lines, ran := Global(e, s.first, s.second, s.hit, s.scripts);
    AmongSize(lines, Matching(r, s.first, s.hit));
    SavedTexts(file, e.sf.file, r, e.rings);
    NotGlobal(e);
    m' := Memory(State(TextsOf(e), e.current_addr), Some(m.now));
    RingSize(e);
    GoodSays(m'.now);
    NextEverywhere(s, m, m', ran, |lines|, status);
    HoldsSays(e, m');
  }

  lemma FitSays(s: Step, addr_last: int)
    requires s.Everywhere?
    ensures Fit(s, addr_last) <==> 1 <= s.first <= s.second <= addr_last && |s.hit| == s.second - s.first + 1
  {
  }

  lemma {:induction false} MatchingSize(r: seq<Line>, first: nat, hit: seq<bool>)
    requires first + |hit| <= |r|
    ensures |Matching(r, first, hit)| <= |hit|
  {
    if hit != [] {
      MatchingSize(r, first, hit[..|hit| - 1]);
    }
  }

  lemma {:induction false} Increasing(at: seq<nat>, n: nat, k: nat)
    requires Visits(at, n) && k <= |at|
    ensures k <= n && (k > 0 ==> at[k - 1] >= k - 1)
  {
    if k > 0 {
      Increasing(at, n, k - 1);
      assert at[k - 1] < n && (k > 1 ==> at[k - 2] < at[k - 1]);
    }
  }

  lemma AmongSize(lines: seq<Line>, m: seq<Line>)
    requires Among(lines, m)
    ensures |lines| <= |m|
  {
    var at: seq<nat> :| |at| == |lines| && Visits(at, |m|) && forall i {:trigger lines[i]} :: 0 <= i < |lines| ==> at[i] < |m| && lines[i] == m[at[i]];
    Increasing(at, |m|, |at|);
  }

  /** Back in the main loop, no global command is going on. */
  method NotGlobal(e: Editor)
    requires Ready(e)
    modifies e`isglobal
    ensures Ready(e) && !e.isglobal && TextsOf(e) == old(TextsOf(e))
  {
    hide *;
    AllParts(e);
    IsTexts(e);
    LinesExist(e.rings, e.log);
    e.isglobal := false;
    SlotsOnly(e);
    AllParts(e);
    IsTexts(e);
  }

  lemma SlotsOnly(e: Editor)
    requires e.Slots() && !e.isglobal
    ensures e.Active()
  {
  }

  /** One u after a global command brings back the same lines, their texts and the addresses. */
  method GlobalAndUndo(e: Editor, s: Step)
    requires Ready(e) && !e.isglobal && 0 <= e.current_addr <= e.addr_last && s.Everywhere? && Fit(s, e.addr_last)
    modifies e, e.sf, e.ring`q_forw, e.ring`q_back
    ensures Ready(e) && e.ring == old(e.ring) && TextsOf(e) == old(TextsOf(e))
    ensures e.addr_last == old(e.addr_last) && e.current_addr == old(e.current_addr)
  {
    FitSays(s, e.addr_last);
    RingSize(e);
    hide *;
    CurrentIn(e);
    ghost var r, file := e.ring, e.sf.file;
    IsTexts(e);
    ghost var lines, ran;
    var status;
    status, lines, ran := Global(e, s.first, s.second, s.hit, s.scripts);
    SavedTexts(file, e.sf.file, r, e.rings);
    NotGlobal(e);
    ReadyParts(e);
    BackInFile(e.sf.file, e.rings);
    LinesExist(e.rings, e.log);
    var ok := e.PopUndoStack();
    assert ok;
    ReadyParts(e);
    IsTexts(e);
  }

  /** One step of a session. */
  method Take(e: Editor, s: Step, ghost m: Memory) returns (ghost m': Memory)
    requires Holds(e, m)
    modifies e, e.sf, Lines(e.rings)`q_forw, Lines(e.rings)`q_back
    ensures Holds(e, m') && Good(m.now) && Next(s, m, m')
    ensures forall x :: x in Lines(e.rings) ==> x in Lines(old(e.rings)) || fresh(x)
  {
    hide *;
    HoldsSays(e, m);
    GoodSays(m.now);
    RingSize(e);
    match s
    case Do(c) => m' := DoStep(e, c, m);
    case TakeBack =>
      var ok;
      ok, m' := UndoStep(e, m);
    case Everywhere(first, second, hit, scripts) =>
      if Fit(s, e.addr_last) {
        m' := GlobalStep(e, s, m);
      } else {
        m' := m;
        NextEverywhere(s, m, m', [], 0, Done);
      }
  }

  /** The memories of a session follow one another by its steps. */
  ghost predicate Follow(ms: seq<Memory>, steps: seq<Step>) {
    && |ms| == |steps| + 1 && ms[0] == EMPTY
    && forall i :: 0 <= i < |steps| ==> Good(ms[i].now) && Next(steps[i], ms[i], ms[i + 1])
  }

  lemma FollowMore(ms: seq<Memory>, steps: seq<Step>, i: nat, m: Memory)
    requires i < |steps| && Follow(ms, steps[..i]) && Good(ms[i].now) && Next(steps[i], ms[i], m)
    ensures Follow(ms + [m], steps[..i + 1]) && (ms + [m])[i + 1] == m && |ms + [m]| == i + 2
  {
    var ms', steps' := ms + [m], steps[..i + 1];
    forall k | 0 <= k < |steps'| ensures Good(ms'[k].now) && Next(steps'[k], ms'[k], ms'[k + 1]) {
      if k < i {
        assert steps'[k] == steps[..i][k] && ms'[k] == ms[k] && ms'[k + 1] == ms[k + 1];
      }
    }
  }

  /** Any session, from the start of the editor on: at every moment the buffer has the texts and the
      current address that the simple memory has, whatever commands, global commands and undos came
      before. */
  method Session(steps: seq<Step>) returns (e: Editor, ghost ms: seq<Memory>)
    ensures fresh(e) && Follow(ms, steps) && |ms| == |steps| + 1 && Holds(e, ms[|steps|])
  {
    e := new Editor();
    Started(e);
    ms := [EMPTY];
    assert Follow(ms, steps[..0]);
    hide *;
    for i := 0 to |steps|
      invariant fresh(e) && fresh(e.sf) && forall x :: x in Lines(e.rings) ==> fresh(x)
      invariant |ms| == i + 1 && Follow(ms, steps[..i]) && Holds(e, ms[i])
    {
      ghost var m := Take(e, steps[i], ms[i]);
      FollowMore(ms, steps, i, m);
      ms := ms + [m];
    }
    assert steps[..|steps|] == steps;
  }

  lemma Started(e: Editor)
    requires e.Valid() && e.sf.Valid() && e.sf.file == "" && InFile(e.sf.file, e.rings) && e.ring == [e.head] && e.rings == [e.ring]
    requires !e.isglobal && e.current_addr == e.addr_last == 0 && e.u_current_addr == e.u_addr_last == -1
    ensures Holds(e, EMPTY) && forall x :: x in Lines(e.rings) ==> x == e.head
  {
    CurrentInFile(e.rings, 0, e.sf.file);
    assert e.head in e.ring;
    assert TextsOf(e)[0] == TextOf(e.sf.file, e.head) == "";
    assert TextsOf(e) == [""];
  }
}
