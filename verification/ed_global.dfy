/** src/bin/ed/glbl.c: global commands. */
module EdGlobal {
  import opened EdLinks
  import opened EdMoves
  import opened EdUndo
  import opened EdBuffer
  import opened EdSession
  import opened EdText
  import opened Seqs

  /** The lines of r from first on for which hit says so, in order. */
  ghost function Matching(r: seq<Line>, first: nat, hit: seq<bool>): seq<Line>
    requires first + |hit| <= |r|
  {
    if hit == [] then [] else
      var n := |hit| - 1;
      Matching(r, first, hit[..n]) + if hit[n] then [r[first + n]] else []
  }

  /** x is one of the lines of r from first on that hit selects. */
  ghost predicate Hit(x: Line, r: seq<Line>, first: nat, hit: seq<bool>)
    requires first + |hit| <= |r|
  {
    exists i :: 0 <= i < |hit| && hit[i] && x == r[first + i]
  }

  lemma {:induction false} MatchingIn(r: seq<Line>, first: nat, hit: seq<bool>)
    requires first + |hit| <= |r| && Distinct(r)
    ensures Distinct(Matching(r, first, hit))
    ensures forall x :: x in Matching(r, first, hit) <==> Hit(x, r, first, hit)
  {
    if hit != [] {
      var n := |hit| - 1;
      var m := Matching(r, first, hit[..n]);
      MatchingIn(r, first, hit[..n]);
      forall x | x in m ensures Hit(x, r, first, hit) && x != r[first + n] {
        assert Hit(x, r, first, hit[..n]);
        var i :| 0 <= i < |hit[..n]| && hit[..n][i] && x == r[first + i];
        assert hit[i];
      }
      var last := if hit[n] then [r[first + n]] else [];
      forall i | 0 <= i < |m| ensures m[i] != r[first + n] {
        assert m[i] in m;
      }
      DistinctParts(m, last);
      forall x | Hit(x, r, first, hit) ensures x in Matching(r, first, hit) {
        var i :| 0 <= i < |hit| && hit[i] && x == r[first + i];
        if i < n {
          assert hit[..n][i];
          assert Hit(x, r, first, hit[..n]);
          assert x in m;
        }
      }
    }
  }

  /** The lines of m stand in r in the same order. */
  ghost predicate AsIn(m: seq<Line>, r: seq<Line>) {
    forall a, b, i, k :: 0 <= a < b < |m| && 0 <= i < |r| && 0 <= k < |r| && m[a] == r[i] && m[b] == r[k] ==> i < k
  }

  lemma {:induction false} MatchingOrder(r: seq<Line>, first: nat, hit: seq<bool>)
    requires first + |hit| <= |r| && Distinct(r)
    ensures AsIn(Matching(r, first, hit), r)
  {
    if hit != [] {
      var n := |hit| - 1;
      var m := Matching(r, first, hit[..n]);
      MatchingOrder(r, first, hit[..n]);
      MatchingIn(r, first, hit[..n]);
      var now := Matching(r, first, hit);
      forall a, b, i, k | 0 <= a < b < |now| && 0 <= i < |r| && 0 <= k < |r| && now[a] == r[i] && now[b] == r[k] ensures i < k {
        assert now[a] == m[a] && m[a] in m;
        var h :| 0 <= h < |hit[..n]| && hit[..n][h] && m[a] == r[first + h];
      }
    }
  }

  /** set_active_node */
  method SetActiveNode(e: Editor, x: Line)
    requires e.Slots() && x !in e.matched && x in e.ring && e.active_ptr == 0 && e.active_ndx == 0 && e.active_list == e.matched
    modifies e`active_list, e`matched
    ensures e.Slots() && e.matched == old(e.matched) + [x] && e.active_list == e.matched
  {
    e.active_list := e.active_list + [x];
    e.matched := e.matched + [x];
  }

  lemma MatchingNext(r: seq<Line>, first: nat, hit: seq<bool>, k: nat)
    requires Distinct(r) && k < |hit| && first + |hit| <= |r|
    ensures Matching(r, first, hit[..k + 1]) == Matching(r, first, hit[..k]) + if hit[k] then [r[first + k]] else []
    ensures r[first + k] !in Matching(r, first, hit[..k])
  {
    assert hit[..k + 1][..k] == hit[..k];
    MatchingIn(r, first, hit[..k]);
  }

  /** The loop body of build_active_list, for the line n. */
  method AddIfHit(e: Editor, x: Line, n: int, first: int, hit: seq<bool>)
    requires e.Buffer() && e.Slots() && 1 <= first <= n <= e.addr_last && n - first < |hit| <= e.addr_last - first + 1 && x == e.ring[n]
    requires e.active_ptr == 0 && e.active_ndx == 0 && e.active_list == e.matched == Matching(e.ring, first, hit[..n - first])
    modifies e`active_list, e`matched
    ensures e.Slots() && e.active_list == e.matched == Matching(e.ring, first, hit[..n - first + 1])
    ensures x.q_forw == e.ring[INC_MOD(n, e.addr_last)]
  {
    MatchingNext(e.ring, first, hit, n - first);
    RingStep(e.ring, n);
    hide Ring, Matching, Distinct;
    if hit[n - first] {
      SetActiveNode(e, x);
    }
  }

  /** build_active_list, where hit tells for every line in the range if it matches. */
  method BuildActiveList(e: Editor, first: int, second: int, hit: seq<bool>)
    requires e.Buffer() && e.Slots() && 1 <= first <= second <= e.addr_last && |hit| == second - first + 1
    modifies e`lp, e`on, e`active_list, e`active_ptr, e`active_ndx, e`matched
    ensures e.Buffer() && e.Slots() && e.active_ptr == 0
    ensures e.active_list == e.matched == Matching(e.ring, first, hit)
    ensures AsIn(e.matched, e.ring) && forall x :: x in e.matched <==> Hit(x, e.ring, first, hit)
  {
    e.ClearActiveList();
    var x := e.GetAddressedLineNode(first);
    var n := first;
    assert hit[..0] == [] && Matching(e.ring, first, []) == [];
    hide Ring, Matching, Distinct, Hit;
    while n <= second
      invariant e.Buffer() && e.Slots() && e.active_ptr == 0 && e.active_ndx == 0
      invariant first <= n <= second + 1 && x == e.ring[if n < |e.ring| then n else 0]
      invariant e.active_list == e.matched == Matching(e.ring, first, hit[..n - first])
    {
      AddIfHit(e, x, n, first, hit);
      n := n + 1;
      x := x.q_forw;
    }
    assert hit[..n - first] == hit;
    MatchingIn(e.ring, first, hit);
    MatchingOrder(e.ring, first, hit);
  }

  /** next_active_node: slots that have been emptied are passed over. */
  method NextActiveNode(e: Editor) returns (x: Line?)
    requires e.Active()
    modifies e`active_ptr
    ensures e.Active()
    ensures x == null ==> e.active_ptr == |e.active_list|
    ensures x != null ==> old(e.active_ptr) < e.active_ptr && x == e.active_list[e.active_ptr - 1] == e.matched[e.active_ptr - 1]
    ensures x != null && e.isglobal ==> x in e.ring
    ensures forall k :: old(e.active_ptr) <= k < (if x == null then e.active_ptr else e.active_ptr - 1) ==> e.active_list[k] == null
  {
    while e.active_ptr < |e.active_list| && e.active_list[e.active_ptr] == null
      invariant e.Active() && old(e.active_ptr) <= e.active_ptr
      invariant forall k :: old(e.active_ptr) <= k < e.active_ptr ==> e.active_list[k] == null
    {
      e.active_ptr := e.active_ptr + 1;
    }
    x := null;
    if e.active_ptr < |e.active_list| {
      x := e.active_list[e.active_ptr];
      e.active_ptr := e.active_ptr + 1;
    }
  }

  /** How a global command ends. LostLine stands for the ERR of get_line_node_addr. */
  datatype Status = Done | CommandFailed | LostLine

  /** The slots of the lines that the global command came to. */
  ghost predicate Visits(visited: seq<nat>, active_ptr: nat) {
    && (forall i {:trigger visited[i]} :: 0 <= i < |visited| ==> visited[i] < active_ptr)
    && (forall i, j :: 0 <= i < j < |visited| ==> visited[i] < visited[j])
  }

  /** Every slot that the command has passed was visited, or had lost its line before. */
  ghost predicate Passed(visited: seq<nat>, list: seq<Line?>, active_ptr: nat) {
    forall k {:trigger list[k]} :: 0 <= k < active_ptr <= |list| ==> k in visited || list[k] == null
  }

  lemma ThinnerYet(list: seq<Line?>, was: seq<Line?>, first: seq<Line?>)
    requires Thinner(list, was) && Thinner(was, first)
    ensures Thinner(list, first)
  {
  }

  lemma RanMore(cs: seq<Command>, i: nat, ts: seq<string>, ok: bool)
    requires i < |cs| && ts != [] && Ran(cs[..i], ts, true) && ok == InRange(cs[i], |EditedAll(cs[..i], ts)| - 1)
    ensures Ran(cs[..i + 1], ts, ok)
  {
    assert cs[..i + 1][..i] == cs[..i];
  }

  lemma RanNone(ts: seq<string>)
    requires ts != []
    ensures Ran([], ts, true) && EditedAll([], ts) == ts
  {
  }

  /** The next command of the list. */
  method ExecuteNext(e: Editor, cs: seq<Command>, i: nat, ghost ts: seq<string>, ghost list: seq<Line?>) returns (ok: bool)
    requires Ready(e) && 0 <= e.current_addr <= e.addr_last && Thinner(e.active_list, list)
    requires i < |cs| && ts != [] && TextsOf(e) == EditedAll(cs[..i], ts) && Ran(cs[..i], ts, true)
    modifies e`lp, e`on, e`addr_last, e`current_addr, e`modified, e`ring, e`active_list, e`active_ndx
    modifies e`ustack, e`rings, e`log, e.sf, Lines(e.rings)`q_forw, Lines(e.rings)`q_back
    ensures Ready(e) && 0 <= e.current_addr <= e.addr_last && Thinner(e.active_list, list)
    ensures TextsOf(e) == EditedAll(cs[..i + 1], ts) && Ran(cs[..i + 1], ts, ok)
    ensures old(e.rings) <= e.rings && old(e.sf.file) <= e.sf.file
    ensures forall x :: x in Lines(e.rings) ==> x in Lines(old(e.rings)) || fresh(x)
  {
    hide *;
    RingIn(e);
    EditedMore(cs, i, ts);
    ok := ExecuteInRange(e, cs[i]);
    RanMore(cs, i, ts, ok);
    ThinnerYet(e.active_list, old(e.active_list), list);
  }

  /** The command list, for one line: it ends with the first command that fails. */
  method ExecuteAll(e: Editor, cs: seq<Command>) returns (ok: bool, ghost ran: seq<Command>)
    requires Ready(e) && 0 <= e.current_addr <= e.addr_last
    modifies e`lp, e`on, e`addr_last, e`current_addr, e`modified, e`ring, e`active_list, e`active_ndx
    modifies e`ustack, e`rings, e`log, e.sf, Lines(e.rings)`q_forw, Lines(e.rings)`q_back
    ensures Ready(e) && 0 <= e.current_addr <= e.addr_last && Thinner(e.active_list, old(e.active_list))
    ensures ran <= cs && (ok ==> ran == cs) && old(e.ring) != []
    ensures TextsOf(e) == EditedAll(ran, old(TextsOf(e))) && Ran(ran, old(TextsOf(e)), ok)
    ensures old(e.rings) <= e.rings && old(e.sf.file) <= e.sf.file
    ensures forall x :: x in Lines(e.rings) ==> x in Lines(old(e.rings)) || fresh(x)
  {
    RingSize(e);
    hide *;
    ok := true;
    var i := 0;
    ghost var ts := TextsOf(e);
    LeftIsThinner(true, e.active_list, []);
    EditedNone(cs, ts);
    RanNone(ts);
    while i < |cs| && ok
      invariant 0 <= i <= |cs| && Ready(e) && 0 <= e.current_addr <= e.addr_last && Thinner(e.active_list, old(e.active_list))
      invariant TextsOf(e) == EditedAll(cs[..i], ts) && Ran(cs[..i], ts, ok)
      invariant old(e.rings) <= e.rings && old(e.sf.file) <= e.sf.file
      invariant forall x :: x in Lines(e.rings) ==> x in Lines(old(e.rings)) || fresh(x)
    {
      ok := ExecuteNext(e, cs, i, ts, old(e.active_list));
      i := i + 1;
    }
    ran := cs[..i];
  }

  /** next_active_node in the loop. */
  method NextLine(e: Editor) returns (x: Line?)
    requires Ready(e) && e.isglobal
    modifies e`active_ptr
    ensures Ready(e)
    ensures x == null ==> e.active_ptr == |e.active_list|
    ensures x != null ==> old(e.active_ptr) < e.active_ptr <= |e.active_list| && x == e.active_list[e.active_ptr - 1] && x in e.ring
    ensures forall k :: old(e.active_ptr) <= k < (if x == null then e.active_ptr else e.active_ptr - 1) ==> e.active_list[k] == null
  {
    LinesExist(e.rings, e.log);
    x := NextActiveNode(e);
  }

  /** The line that the command list is run for becomes the current one. */
  method SetAddress(e: Editor, x: Line) returns (ok: bool)
    requires Ready(e) && x in e.ring
    modifies e`current_addr
    ensures Ready(e) && ok && 0 <= e.current_addr < |e.ring| && e.ring[e.current_addr] == x
  {
    LinesExist(e.rings, e.log);
    var addr := e.GetLineNodeAddr(x);
    e.current_addr := addr;
    ok := e.current_addr >= 0;
  }

  lemma VisitMore(visited: seq<nat>, list: seq<Line?>, p0: nat, p1: nat)
    requires Visits(visited, p0) && Passed(visited, list, p0) && p0 < p1 <= |list|
    requires forall k :: p0 <= k < p1 - 1 ==> list[k] == null
    ensures Visits(visited + [p1 - 1], p1) && Passed(visited + [p1 - 1], list, p1)
  {
    forall k | 0 <= k < p1 ensures k in visited + [p1 - 1] || list[k] == null {
      assert k in visited ==> k in visited + [p1 - 1];
    }
  }

  lemma VisitEnd(visited: seq<nat>, list: seq<Line?>, p0: nat)
    requires Visits(visited, p0) && Passed(visited, list, p0) && p0 <= |list|
    requires forall k :: p0 <= k < |list| ==> list[k] == null
    ensures Visits(visited, |list|) && Passed(visited, list, |list|)
  {
  }

  lemma PassedThinner(visited: seq<nat>, list: seq<Line?>, was: seq<Line?>, first: seq<Line?>, p: nat)
    requires Thinner(list, was) && Thinner(was, first) && Passed(visited, was, p) && Visits(visited, p) && p <= |was|
    ensures Passed(visited, list, p) && Thinner(list, first) && |list| == |was| && Visits(visited, |list|)
  {
  }

  /** clear_undo_stack in exec_global. */
  method StartGlobal(e: Editor)
    requires Ready(e)
    modifies e`ustack, e`u_current_addr, e`u_addr_last, e`rings, e`log
    ensures Ready(e) && TextsOf(e) == old(TextsOf(e)) && e.rings == [e.ring] && forall x :: x in Lines(e.rings) ==> x in e.ring
    ensures e.u_current_addr == e.current_addr && e.u_addr_last == e.addr_last
  {
    hide *;
    ReadyParts(e);
    LinesExist(e.rings, e.log);
    CurrentIn(e);
    IsTexts(e);
    var freed := e.ClearUndoStack();
    NewLog(e);
    assert forall x :: x in Lines(e.rings) ==> x in e.ring;
    ReadyParts(e);
    IsTexts(e);
  }

  /** The body of the loop of exec_global, for the line x. */
  method VisitLine(e: Editor, x: Line, script: seq<Command>) returns (r: Status, ghost ran: seq<Command>)
    requires Ready(e) && x in e.ring
    modifies e`lp, e`on, e`addr_last, e`current_addr, e`modified, e`ring, e`active_list, e`active_ndx
    modifies e`ustack, e`rings, e`log, e.sf, Lines(e.rings)`q_forw, Lines(e.rings)`q_back
    ensures Ready(e) && 0 <= e.current_addr <= e.addr_last && Thinner(e.active_list, old(e.active_list)) && r != LostLine
    ensures ran <= script && (r == Done ==> ran == script) && old(e.ring) != []
    ensures TextsOf(e) == EditedAll(ran, old(TextsOf(e))) && Ran(ran, old(TextsOf(e)), r == Done)
    ensures old(e.rings) <= e.rings && old(e.sf.file) <= e.sf.file
    ensures forall x :: x in Lines(e.rings) ==> x in Lines(old(e.rings)) || fresh(x)
  {
    RingSize(e);
    hide *;
    ghost var ts := TextsOf(e);
    IsTexts(e);
    var found := SetAddress(e, x);
    IsTexts(e);
    RingSize(e);
    LinesExist(e.rings, e.log);
    var ok;
    ok, ran := ExecuteAll(e, script);
    r := if !found then LostLine else if ok then Done else CommandFailed;
  }

  /** The line of each visited slot. */
  ghost predicate Came(lines: seq<Line>, visited: seq<nat>, was: seq<Line?>) {
    |lines| == |visited| && forall i {:trigger lines[i]} :: 0 <= i < |lines| ==> visited[i] < |was| && lines[i] == was[visited[i]]
  }

  /** What the loop of exec_global has done so far. */
  ghost predicate Sofar(visited: seq<nat>, lines: seq<Line>, list: seq<Line?>, was: seq<Line?>, active_ptr: nat) {
    active_ptr <= |list| && Visits(visited, active_ptr) && Passed(visited, list, active_ptr) && Thinner(list, was) && Came(lines, visited, was)
  }

  lemma SofarMore(visited: seq<nat>, lines: seq<Line>, list: seq<Line?>, was: seq<Line?>, p0: nat, p1: nat, x: Line)
    requires Sofar(visited, lines, list, was, p0) && p0 < p1 <= |list| && forall k :: p0 <= k < p1 - 1 ==> list[k] == null
    requires x == list[p1 - 1]
    ensures Sofar(visited + [p1 - 1], lines + [x], list, was, p1)
  {
    VisitMore(visited, list, p0, p1);
  }

  lemma SofarEnd(visited: seq<nat>, lines: seq<Line>, list: seq<Line?>, was: seq<Line?>, p0: nat)
    requires Sofar(visited, lines, list, was, p0) && forall k :: p0 <= k < |list| ==> list[k] == null
    ensures Sofar(visited, lines, list, was, |list|)
  {
    VisitEnd(visited, list, p0);
  }

  lemma SofarThinner(visited: seq<nat>, lines: seq<Line>, list: seq<Line?>, list0: seq<Line?>, was: seq<Line?>, p: nat)
    requires Sofar(visited, lines, list0, was, p) && Thinner(list, list0)
    ensures Sofar(visited, lines, list, was, p) && |list| == |list0| && p <= |list|
  {
    PassedThinner(visited, list, list0, was, p);
  }

  /** One turn of the loop; more tells if there was a line to come to. */
  method Turn(e: Editor, script: seq<Command>, ghost visited0: seq<nat>, ghost lines0: seq<Line>, ghost was: seq<Line?>)
    returns (more: bool, r: Status, ghost visited: seq<nat>, ghost lines: seq<Line>, ghost ran: seq<Command>)
    requires Ready(e) && e.isglobal && Sofar(visited0, lines0, e.active_list, was, e.active_ptr)
    modifies e`lp, e`on, e`addr_last, e`current_addr, e`modified, e`ring, e`active_list, e`active_ndx, e`active_ptr
    modifies e`ustack, e`rings, e`log, e.sf, Lines(e.rings)`q_forw, Lines(e.rings)`q_back
    ensures Ready(e) && Sofar(visited, lines, e.active_list, was, e.active_ptr) && r != LostLine && |e.active_list| == old(|e.active_list|)
    ensures if more then old(e.active_ptr) < e.active_ptr <= |e.active_list| else e.active_ptr == |e.active_list| && r == Done
    ensures |visited| == |visited0| + if more then 1 else 0
    ensures ran <= (if more then script else []) && (r == Done ==> ran == if more then script else [])
    ensures old(e.ring) != [] && TextsOf(e) == EditedAll(ran, old(TextsOf(e))) && Ran(ran, old(TextsOf(e)), r == Done)
    ensures 0 <= old(e.current_addr) <= old(e.addr_last) ==> 0 <= e.current_addr <= e.addr_last
    ensures old(e.rings) <= e.rings && old(e.sf.file) <= e.sf.file
    ensures forall x :: x in Lines(e.rings) ==> x in Lines(old(e.rings)) || fresh(x)
  {
    RingSize(e);
    hide *;
    IsTexts(e);
    var x := NextLine(e);
    IsTexts(e);
    visited, lines, more, r, ran := visited0, lines0, x != null, Done, [];
    if more {
      SofarMore(visited0, lines0, e.active_list, was, old(e.active_ptr), e.active_ptr, x);
      visited, lines := visited0 + [e.active_ptr - 1], lines0 + [x];
      ghost var list := e.active_list;
      r, ran := VisitLine(e, x, script);
      SofarThinner(visited, lines, e.active_list, list, was, e.active_ptr);
    } else {
      RanNone(TextsOf(e));
      SofarEnd(visited, lines, e.active_list, was, old(e.active_ptr));
    }
  }

  /** The commands of the first n scripts. */
  function AllOf(scripts: seq<seq<Command>>, n: nat): seq<Command> {
    if n == 0 then [] else AllOf(scripts, n - 1) + if n <= |scripts| then scripts[n - 1] else []
  }

  /** What has been run so far for n lines, and what it has made of the texts. */
  ghost predicate Commanded(ran: seq<Command>, scripts: seq<seq<Command>>, n: nat, ts0: seq<string>, ts: seq<string>, r: Status) {
    && ts0 != [] && ts == EditedAll(ran, ts0) && Ran(ran, ts0, r == Done)
    && ran <= AllOf(scripts, n) && (r == Done ==> ran == AllOf(scripts, n))
  }

  lemma CommandedMore(ran: seq<Command>, more: seq<Command>, scripts: seq<seq<Command>>, n: nat, ts0: seq<string>, ts: seq<string>, ts': seq<string>, r: Status)
    requires Commanded(ran, scripts, n, ts0, ts, Done) && ts != [] && ts' == EditedAll(more, ts) && Ran(more, ts, r == Done)
    requires var script := if n < |scripts| then scripts[n] else []; more <= script && (r == Done ==> more == script)
    ensures Commanded(ran + more, scripts, n + 1, ts0, ts', r)
  {
    EditedBoth(ran, more, ts0, r == Done);
  }

  lemma CommandedNone(scripts: seq<seq<Command>>, ts: seq<string>)
    requires ts != []
    ensures Commanded([], scripts, 0, ts, ts, Done)
  {
  }

  /** The loop body of exec_global. */
  method Round(e: Editor, scripts: seq<seq<Command>>, i: nat, ghost visited0: seq<nat>, ghost lines0: seq<Line>, ghost ran0: seq<Command>,
               ghost was: seq<Line?>, ghost ts: seq<string>)
    returns (more: bool, r: Status, ghost visited: seq<nat>, ghost lines: seq<Line>, ghost ran: seq<Command>)
    requires Ready(e) && e.isglobal && Sofar(visited0, lines0, e.active_list, was, e.active_ptr) && |visited0| == i
    requires Commanded(ran0, scripts, i, ts, TextsOf(e), Done)
    modifies e`lp, e`on, e`addr_last, e`current_addr, e`modified, e`ring, e`active_list, e`active_ndx, e`active_ptr
    modifies e`ustack, e`rings, e`log, e.sf, Lines(e.rings)`q_forw, Lines(e.rings)`q_back
    ensures Ready(e) && Sofar(visited, lines, e.active_list, was, e.active_ptr) && r != LostLine && |e.active_list| == old(|e.active_list|)
    ensures if more then old(e.active_ptr) < e.active_ptr <= |e.active_list| else e.active_ptr == |e.active_list| && r == Done
    ensures |visited| == (if more then i + 1 else i) && Commanded(ran, scripts, |visited|, ts, TextsOf(e), r)
    ensures 0 <= old(e.current_addr) <= old(e.addr_last) ==> 0 <= e.current_addr <= e.addr_last
    ensures old(e.rings) <= e.rings && old(e.sf.file) <= e.sf.file
    ensures forall x :: x in Lines(e.rings) ==> x in Lines(old(e.rings)) || fresh(x)
  {
    RingSize(e);
    hide *;
    ghost var now, part := TextsOf(e), [];
    more, r, visited, lines, part := Turn(e, if i < |scripts| then scripts[i] else [], visited0, lines0, was);
    ran := ran0;
    if more {
      CommandedMore(ran0, part, scripts, i, ts, now, TextsOf(e), r);
      ran := ran0 + part;
    } else {
      EditedNone([], now);
    }
  }

  /** The loop of exec_global. */
  method Rounds(e: Editor, scripts: seq<seq<Command>>) returns (r: Status, ghost visited: seq<nat>, ghost lines: seq<Line>, ghost ran: seq<Command>)
    requires Ready(e) && e.isglobal && e.active_ptr == 0
    modifies e`lp, e`on, e`addr_last, e`current_addr, e`modified, e`ring, e`active_list, e`active_ndx, e`active_ptr
    modifies e`ustack, e`rings, e`log, e.sf, Lines(e.rings)`q_forw, Lines(e.rings)`q_back
    ensures Ready(e) && r != LostLine && Sofar(visited, lines, e.active_list, old(e.active_list), e.active_ptr)
    ensures r == Done ==> e.active_ptr == |e.active_list|
    ensures Commanded(ran, scripts, |visited|, old(TextsOf(e)), TextsOf(e), r)
    ensures 0 <= old(e.current_addr) <= old(e.addr_last) ==> 0 <= e.current_addr <= e.addr_last
    ensures old(e.rings) <= e.rings && old(e.sf.file) <= e.sf.file
    ensures forall x :: x in Lines(e.rings) ==> x in Lines(old(e.rings)) || fresh(x)
  {
    RingSize(e);
    hide *;
    ghost var ts, list := TextsOf(e), e.active_list;
    SofarNone(list);
    CommandedNone(scripts, ts);
    visited, lines, ran := [], [], [];
    var i, more := 0, true;
    r := Done;
    while more && r == Done
      invariant Ready(e) && 0 <= i && Sofar(visited, lines, e.active_list, list, e.active_ptr)
      invariant r != LostLine && (if more then |visited| == i else e.active_ptr == |e.active_list|)
      invariant Commanded(ran, scripts, |visited|, ts, TextsOf(e), r)
      invariant 0 <= old(e.current_addr) <= old(e.addr_last) ==> 0 <= e.current_addr <= e.addr_last
      invariant old(e.rings) <= e.rings && old(e.sf.file) <= e.sf.file
      invariant forall x :: x in Lines(e.rings) ==> x in Lines(old(e.rings)) || fresh(x)
      decreases |e.active_list| - e.active_ptr, if more then 1 else 0
    {
      more, r, visited, lines, ran := Round(e, scripts, i, visited, lines, ran, list, ts);
      i := i + 1;
    }
  }

  /** exec_global: scripts[i] is what the command list does for the i-th line that it is run on.
      A line that the command comes to is always in the buffer; the lines come in their original
      order, each at most once; and those that it does not come to have lost their slots. The texts
      are edited by the commands one after the other, up to the first that fails; and the undo stack
      leads back to the buffer as it was. */
  method ExecGlobal(e: Editor, scripts: seq<seq<Command>>) returns (r: Status, ghost visited: seq<nat>, ghost lines: seq<Line>, ghost ran: seq<Command>)
    requires Ready(e) && e.isglobal && e.active_ptr == 0
    modifies e`lp, e`on, e`addr_last, e`current_addr, e`modified, e`ring, e`active_list, e`active_ndx, e`active_ptr
    modifies e`ustack, e`u_current_addr, e`u_addr_last, e`rings, e`log, e.sf, e.ring`q_forw, e.ring`q_back
    ensures Ready(e) && r != LostLine && e.active_ptr <= |e.active_list|
    ensures Visits(visited, e.active_ptr) && Passed(visited, e.active_list, e.active_ptr) && Thinner(e.active_list, old(e.active_list))
    ensures Came(lines, visited, old(e.active_list))
    ensures r == Done ==> e.active_ptr == |e.active_list|
    ensures Commanded(ran, scripts, |visited|, old(TextsOf(e)), TextsOf(e), r)
    ensures [old(e.ring)] <= e.rings && e.u_current_addr == old(e.current_addr) && e.u_addr_last == old(e.addr_last) && old(e.sf.file) <= e.sf.file
    ensures 0 <= old(e.current_addr) <= old(e.addr_last) ==> 0 <= e.current_addr <= e.addr_last
    ensures forall x :: x in Lines(e.rings) ==> x in old(e.ring) || fresh(x)
  {
    hide *;
    StartGlobal(e);
    ghost var list := e.active_list;
    r, visited, lines, ran := Rounds(e, scripts);
    SofarSays(visited, lines, e.active_list, list, e.active_ptr);
  }

  lemma SofarNone(list: seq<Line?>)
    ensures Sofar([], [], list, list, 0)
  {
  }

  lemma SofarSays(visited: seq<nat>, lines: seq<Line>, list: seq<Line?>, was: seq<Line?>, p: nat)
    requires Sofar(visited, lines, list, was, p)
    ensures p <= |list| && Visits(visited, p) && Passed(visited, list, p) && Thinner(list, was) && Came(lines, visited, was)
  {
  }

  /** lines are some of m, in their order, each at most once. */
  ghost predicate Among(lines: seq<Line>, m: seq<Line>) {
    exists at: seq<nat> :: |at| == |lines| && Visits(at, |m|) && forall i {:trigger lines[i]} :: 0 <= i < |lines| ==> at[i] < |m| && lines[i] == m[at[i]]
  }

  /** The active list that has just been built is right for the command. */
  lemma ActiveBuilt(e: Editor, first: nat, hit: seq<bool>)
    requires e.Buffer() && e.Slots() && e.active_ptr == 0 && first + |hit| <= |e.ring| && e.active_list == e.matched == Matching(e.ring, first, hit)
    ensures e.Active()
  {
    MatchingIn(e.ring, first, hit);
    forall k | 0 <= k < |e.active_list| ensures e.active_list[k] in e.ring {
      assert e.matched[k] in e.matched;
      assert Hit(e.matched[k], e.ring, first, hit);
    }
  }

  lemma CameAmong(lines: seq<Line>, visited: seq<nat>, m: seq<Line>, was: seq<Line?>, p: nat)
    requires Came(lines, visited, was) && was == m && Visits(visited, p) && p <= |m|
    ensures Among(lines, m)
  {
    assert Visits(visited, |m|);
  }

  lemma Thinned(list: seq<Line?>, was: seq<Line?>)
    requires Thinner(list, was)
    ensures |list| == |was|
  {
  }

  lemma CameAll(lines: seq<Line>, visited: seq<nat>, m: seq<Line>, was: seq<Line?>, list: seq<Line?>)
    requires Came(lines, visited, was) && was == m && |list| == |m| && Passed(visited, list, |list|)
    ensures forall k {:trigger m[k]} :: 0 <= k < |m| ==> m[k] in lines || list[k] == null
  {
    forall k {:trigger m[k]} | 0 <= k < |m| ensures m[k] in lines || list[k] == null {
      if k in visited {
        var i :| 0 <= i < |visited| && visited[i] == k;
        assert lines[i] == m[k];
      }
    }
  }

  /** The active list is built, and the global command begins. */
  method Prepare(e: Editor, first: int, second: int, hit: seq<bool>)
    requires Ready(e) && 1 <= first <= second <= e.addr_last && |hit| == second - first + 1
    modifies e`lp, e`on, e`active_list, e`active_ptr, e`active_ndx, e`matched, e`isglobal
    ensures Ready(e) && e.isglobal && e.active_ptr == 0 && TextsOf(e) == old(TextsOf(e))
    ensures first + |hit| <= |e.ring| && e.active_list == Matching(e.ring, first, hit)
  {
    hide *;
    IsTexts(e);
    AllParts(e);
    LinesExist(e.rings, e.log);
    BuildActiveList(e, first, second, hit);
    e.isglobal := true;
    RangeIn(e, second);
    ActiveBuilt(e, first, hit);
    AllParts(e);
    IsTexts(e);
  }

  lemma AllParts(e: Editor)
    ensures Ready(e) <==> e.Buffer() && e.Undoable() && e.Active() && e.sf.Valid() && InFile(e.sf.file, e.rings)
    ensures e.Active() ==> e.Slots()
  {
  }

  lemma RangeIn(e: Editor, second: int)
    requires e.Buffer() && second <= e.addr_last
    ensures second < |e.ring|
  {
  }

  /** The commands g and v, from the list of matching lines to the last turn: the command comes to
      some of the lines that matched when it began, in their order and to each at most once; those
      that it leaves out have lost their slots by then. The texts are edited by the command lists of
      the lines that it comes to. */
  method Global(e: Editor, first: int, second: int, hit: seq<bool>, scripts: seq<seq<Command>>)
    returns (r: Status, ghost lines: seq<Line>, ghost ran: seq<Command>)
    requires Ready(e) && !e.isglobal && 1 <= first <= second <= e.addr_last && |hit| == second - first + 1
    modifies e`lp, e`on, e`addr_last, e`current_addr, e`modified, e`ring, e`active_list, e`active_ndx, e`active_ptr, e`matched, e`isglobal
    modifies e`ustack, e`u_current_addr, e`u_addr_last, e`rings, e`log, e.sf, e.ring`q_forw, e.ring`q_back
    ensures Ready(e) && r != LostLine && first + |hit| <= |old(e.ring)| && Among(lines, Matching(old(e.ring), first, hit))
    ensures var m := Matching(old(e.ring), first, hit);
      r == Done ==> |e.active_list| == |m| && forall k {:trigger m[k]} :: 0 <= k < |m| ==> m[k] in lines || e.active_list[k] == null
    ensures Commanded(ran, scripts, |lines|, old(TextsOf(e)), TextsOf(e), r)
    ensures [old(e.ring)] <= e.rings && e.u_current_addr == old(e.current_addr) && e.u_addr_last == old(e.addr_last) && old(e.sf.file) <= e.sf.file
    ensures 0 <= old(e.current_addr) <= old(e.addr_last) ==> 0 <= e.current_addr <= e.addr_last
    ensures forall x :: x in Lines(e.rings) ==> x in old(e.ring) || fresh(x)
  {
    hide *;
    Prepare(e, first, second, hit);
    ghost var m, list := Matching(e.ring, first, hit), e.active_list;
    ghost var visited;
    r, visited, lines, ran := ExecGlobal(e, scripts);
    Thinned(e.active_list, list);
    CameAmong(lines, visited, m, list, e.active_ptr);
    CameLength(lines, visited, list);
    if r == Done {
      CameAll(lines, visited, m, list, e.active_list);
    }
  }

  lemma CameLength(lines: seq<Line>, visited: seq<nat>, was: seq<Line?>)
    requires Came(lines, visited, was)
    ensures |lines| == |visited|
  {
  }
}
