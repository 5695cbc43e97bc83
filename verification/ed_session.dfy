/** src/bin/ed: the commands that change the buffer, any run of them and undoing the run, and
    global commands. */
module EdSession {
  import opened EdLinks
  import opened EdLog
  import opened EdUndo
  import opened EdBuffer
  import opened EdText
  import opened EdLaws

  ghost predicate Ready(e: Editor)
    reads e, e.ring, LogLines(e.log), e.sf
  {
    e.Valid() && e.sf.Valid() && InFile(e.sf.file, e.rings)
  }

  /** The texts of the buffer, the head first. */
  ghost function TextsOf(e: Editor): (ts: seq<string>)
    reads e`ring, e.sf`file
    ensures |ts| == |e.ring|
  {
    Texts(e.sf.file, e.ring)
  }

  /** Slots of the active list have been emptied, at most. */
  ghost predicate Thinner(list: seq<Line?>, was: seq<Line?>) {
    |list| == |was| && forall k :: 0 <= k < |list| ==> list[k] == null || list[k] == was[k]
  }

  lemma LeftIsThinner(isglobal: bool, was: seq<Line?>, gone: seq<Line>)
    ensures Thinner(Left(isglobal, was, gone), was) && Thinner(was, was)
  {
  }

  lemma ReadyParts(e: Editor)
    ensures Ready(e) <==> e.Valid() && e.sf.Valid() && InFile(e.sf.file, e.rings)
  {
  }

  /** The lines of a ring made of old lines and news. */
  lemma Mixed(rings: seq<seq<Line>>, k: nat, r: seq<Line>, news: seq<Line>)
    requires k < |rings| && forall x :: x in r ==> x in rings[k] || x in news
    ensures forall x :: x in Lines(rings + [r]) ==> x in Lines(rings) || x in news
  {
    LinesOn(rings, r);
    assert forall x :: x in rings[k] ==> x in Lines(rings);
  }

  lemma Around<T>(r: seq<T>, i: nat, news: seq<T>, j: nat)
    requires i <= j <= |r|
    ensures forall x :: x in r[..i] + news + r[j..] ==> x in r || x in news
  {
  }

  /** A command leaves the current address in the buffer. */
  lemma WhereInRange(c: Command, ts: seq<string>, cur: int)
    requires 0 <= cur < |ts|
    ensures 0 <= Where(c, |ts| - 1, cur) < |Edited(c, ts)|
  {
  }

  lemma OutOfRange(c: Command, ts: seq<string>, current_addr: int)
    requires ts != [] && !InRange(c, |ts| - 1)
    ensures Edited(c, ts) == ts && Where(c, |ts| - 1, current_addr) == current_addr
  {
  }

  lemma IsTexts(e: Editor)
    ensures TextsOf(e) == Texts(e.sf.file, e.ring)
  {
  }

  lemma AppendedTexts(file: string, file': string, r: seq<Line>, n: nat, news: seq<Line>, ss: seq<string>)
    requires file <= file' && RingInFile(file, r) && n < |r| && HaveAll(file', news, ss)
    ensures Texts(file', r[..n + 1] + news + r[n + 1..]) == Put(Texts(file, r), n, ss) && |news| == |ss|
  {
    TextsPut(file, file', r, n, news);
    TextsHave(file', news, ss);
  }

  lemma EditedIs(c: Command, ts: seq<string>)
    requires ts != [] && InRange(c, |ts| - 1)
    ensures c.Append? ==> Edited(c, ts) == Put(ts, c.n, Taken(c.lines))
    ensures c.Change? ==> Edited(c, ts) == Put(Drop(ts, c.from, c.to), c.from - 1, Taken(c.lines))
    ensures c.Delete? ==> Edited(c, ts) == Drop(ts, c.from, c.to)
    ensures c.Move? ==> Edited(c, ts) == Shift(ts, c.from, c.to, c.addr)
    ensures c.Copy? ==> Edited(c, ts) == Put(ts, c.addr, ts[c.from..c.to + 1])
    ensures c.Join? ==> Edited(c, ts) == if c.from == c.to then ts else Put(Drop(ts, c.from, c.to), c.from - 1, [Concat(ts[c.from..c.to + 1])])
  {
  }

  lemma WhereIs(c: Command, last: int, cur: int)
    requires InRange(c, last)
    ensures var w := Where(c, last, cur);
      && (c.Append? ==> w == c.n + |Taken(c.lines)|)
      && (c.Change? ==> w == c.from - 1 + |Taken(c.lines)|)
      && (c.Delete? ==> w == if c.to < last then c.from else c.from - 1)
      && (c.Move? ==> w == if c.addr == c.from - 1 || c.addr == c.to then c.to else c.addr + (if c.addr < c.from then c.to - c.from + 1 else 0))
      && (c.Copy? ==> w == c.addr + (c.to - c.from + 1))
      && (c.Join? ==> w == if c.from == c.to then cur else c.from)
  {
  }

  lemma InRangeSays(c: Command, addr_last: int)
    requires InRange(c, addr_last)
    ensures c.Append? ==> 0 <= c.n <= addr_last
    ensures c.Copy? || c.Move? ==> 0 <= c.addr <= addr_last && (c.Move? ==> c.addr < c.from || c.addr >= c.to)
    ensures !c.Append? ==> 1 <= c.from <= c.to <= addr_last
  {
  }

  /** The buffer before a command in range, and what the command is to do. */
  lemma Known(e: Editor, c: Command)
    requires Ready(e) && InRange(c, e.addr_last)
    ensures |e.rings| == |e.log| + 1 && e.rings[|e.log|] == e.ring && |e.ring| == e.addr_last + 1
    ensures e.ring != [] && |TextsOf(e)| == |e.ring| && TextsOf(e) == Texts(e.sf.file, e.ring)
    ensures RingInFile(e.sf.file, e.ring)
    ensures c.Append? ==> 0 <= c.n <= e.addr_last
    ensures c.Copy? || c.Move? ==> 0 <= c.addr <= e.addr_last && (c.Move? ==> c.addr < c.from || c.addr >= c.to)
    ensures !c.Append? ==> 1 <= c.from <= c.to <= e.addr_last
    ensures var ts := TextsOf(e);
      && (c.Append? ==> Edited(c, ts) == Put(ts, c.n, Taken(c.lines)))
      && (c.Change? ==> Edited(c, ts) == Put(Drop(ts, c.from, c.to), c.from - 1, Taken(c.lines)))
      && (c.Delete? ==> Edited(c, ts) == Drop(ts, c.from, c.to))
      && (c.Move? ==> Edited(c, ts) == Shift(ts, c.from, c.to, c.addr))
      && (c.Copy? ==> Edited(c, ts) == Put(ts, c.addr, ts[c.from..c.to + 1]))
      && (c.Join? ==> Edited(c, ts) == if c.from == c.to then ts else Put(Drop(ts, c.from, c.to), c.from - 1, [Concat(ts[c.from..c.to + 1])]))
  {
    e.Size();
    e.RingIsLast();
    CurrentInFile(e.rings, |e.log|, e.sf.file);
    InRangeSays(c, e.addr_last);
    hide Put, Drop, Shift, Concat, Ready, Edited;
    EditedIs(c, TextsOf(e));
  }

  method DoAppend(e: Editor, n: int, lines: seq<string>)
    requires Ready(e) && InRange(Append(n, lines), e.addr_last)
    modifies e`lp, e`on, e`addr_last, e`current_addr, e`ring, e`ustack, e`rings, e`log, e`modified
    modifies e.sf, e.ring`q_forw, e.ring`q_back
    ensures Ready(e) && old(e.rings) <= e.rings && old(e.log) <= e.log && old(e.sf.file) <= e.sf.file
    ensures old(e.ring) != [] && TextsOf(e) == Edited(Append(n, lines), old(TextsOf(e)))
    ensures e.current_addr == Where(Append(n, lines), old(e.addr_last), old(e.current_addr))
    ensures forall x :: x in Lines(e.rings) ==> x in Lines(old(e.rings)) || fresh(x)
  {
    hide *;
    Known(e, Append(n, lines));
    WhereIs(Append(n, lines), e.addr_last, e.current_addr);
    ReadyParts(e);
    ghost var was, rings0, k, file0 := e.ring, e.rings, |e.log|, e.sf.file;
    LinesExist(e.rings, e.log);
    ghost var news := e.AppendLines(n, lines);
    AppendedTexts(file0, e.sf.file, was, n, news, Taken(lines));
    IsTexts(e);
    Around(was, n + 1, news, n + 1);
    Mixed(rings0, k, e.ring, news);
    ReadyParts(e);
  }

  lemma DeletedTexts(file: string, r: seq<Line>, from: nat, to: nat)
    requires from <= to < |r|
    ensures Texts(file, r[..from] + r[to + 1..]) == Drop(Texts(file, r), from, to)
  {
    TextsDrop(file, r, from, to);
  }

  method DoDelete(e: Editor, from: int, to: int)
    requires Ready(e) && 1 <= from <= to <= e.addr_last
    modifies e`lp, e`on, e`addr_last, e`current_addr, e`modified, e`ring, e`active_list, e`active_ndx
    modifies e`ustack, e`rings, e`log, e.ring`q_forw, e.ring`q_back
    ensures Ready(e) && old(e.rings) <= e.rings && old(e.log) <= e.log && e.current_addr == from - 1 <= e.addr_last
    ensures to < |old(e.ring)| && TextsOf(e) == Drop(old(TextsOf(e)), from, to) && e.addr_last == old(e.addr_last) - (to - from + 1)
    ensures Lines(e.rings) <= Lines(old(e.rings)) && Thinner(e.active_list, old(e.active_list))
    ensures forall i {:trigger e.ring[i]} :: 0 <= i < |e.ring| ==> e.ring[i] in old(e.ring)
  {
    e.Size();
    e.RingIsLast();
    hide *;
    ReadyParts(e);
    ghost var was, rings0, k := e.ring, e.rings, |e.log|;
    LinesExist(e.rings, e.log);
    LeftIsThinner(e.isglobal, e.active_list, e.ring[from..to + 1]);
    e.DeleteLines(from, to);
    DeletedTexts(e.sf.file, was, from, to);
    IsTexts(e);
    e.Size();
    PartOf(was, from, to);
    Mixed(rings0, k, e.ring, []);
    CutInFile(e.sf.file, rings0, k, e.ring);
    ReadyParts(e);
  }

  method DoMove(e: Editor, from: int, to: int, addr: int)
    requires Ready(e) && InRange(Move(from, to, addr), e.addr_last)
    modifies e`lp, e`on, e`current_addr, e`modified, e`ring, e`active_list, e`active_ndx
    modifies e`ustack, e`rings, e`log, e.ring`q_forw, e.ring`q_back
    ensures Ready(e) && old(e.rings) <= e.rings && old(e.log) <= e.log
    ensures old(e.ring) != [] && TextsOf(e) == Edited(Move(from, to, addr), old(TextsOf(e)))
    ensures e.current_addr == Where(Move(from, to, addr), old(e.addr_last), old(e.current_addr))
    ensures Lines(e.rings) <= Lines(old(e.rings)) && Thinner(e.active_list, old(e.active_list))
  {
    hide *;
    Known(e, Move(from, to, addr));
    WhereIs(Move(from, to, addr), e.addr_last, e.current_addr);
    MovedInFile(e, from, to, addr);
    MovedTexts(e.sf.file, e.ring, from, to, addr);
    ReadyParts(e);
    LeftIsThinner(e.isglobal, e.active_list, e.ring[from..to + 1]);
    e.MoveLines(from, to, addr);
    IsTexts(e);
    ReadyParts(e);
  }

  lemma MovedTexts(file: string, r: seq<Line>, from: nat, to: nat, addr: nat)
    requires 1 <= from <= to < |r| && addr < |r| && !(from <= addr < to)
    ensures addr < from - 1 || addr > to ==> Texts(file, After(MovOf(r, from, to, addr))) == Shift(Texts(file, r), from, to, addr)
    ensures addr == from - 1 || addr == to ==> Shift(Texts(file, r), from, to, addr) == Texts(file, r)
  {
    if addr < from - 1 || addr > to {
      MovedIs(r, from, to, addr);
      TextsShift(file, r, from, to, addr);
    }
  }

  lemma MovedInFile(e: Editor, from: int, to: int, addr: int)
    requires Ready(e) && InRange(Move(from, to, addr), e.addr_last)
    ensures addr < from || addr >= to
    ensures addr < from - 1 || addr > to ==>
      var rings := e.rings + [After(MovOf(e.ring, from, to, addr))];
      InFile(e.sf.file, rings) && Lines(rings) <= Lines(e.rings)
  {
    if addr < from - 1 || addr > to {
      var r := After(MovOf(e.ring, from, to, addr));
      MovSays(e.ring, from, to, addr);
      Mixed(e.rings, |e.log|, r, []);
      CutInFile(e.sf.file, e.rings, |e.log|, r);
    }
  }

  lemma CopiedTexts(file: string, r: seq<Line>, from: nat, to: nat, addr: nat, news: seq<Line>)
    requires 1 <= from <= to < |r| && addr < |r| && RingInFile(file, r) && Copies(news, r, from) && |news| == to - from + 1
    ensures Texts(file, r[..addr + 1] + news + r[addr + 1..]) == Put(Texts(file, r), addr, Texts(file, r)[from..to + 1])
  {
    TextsPut(file, file, r, addr, news);
    TextsCopies(file, news, r, from);
  }

  method DoCopy(e: Editor, from: int, to: int, addr: int)
    requires Ready(e) && InRange(Copy(from, to, addr), e.addr_last)
    modifies e`lp, e`on, e`addr_last, e`current_addr, e`ring, e`ustack, e`rings, e`log, e`modified
    modifies e.ring`q_forw, e.ring`q_back
    ensures Ready(e) && old(e.rings) <= e.rings && old(e.log) <= e.log
    ensures old(e.ring) != [] && TextsOf(e) == Edited(Copy(from, to, addr), old(TextsOf(e)))
    ensures e.current_addr == Where(Copy(from, to, addr), old(e.addr_last), old(e.current_addr))
    ensures forall x :: x in Lines(e.rings) ==> x in Lines(old(e.rings)) || fresh(x)
  {
    hide *;
    Known(e, Copy(from, to, addr));
    WhereIs(Copy(from, to, addr), e.addr_last, e.current_addr);
    ReadyParts(e);
    ghost var was, rings0, k := e.ring, e.rings, |e.log|;
    LinesExist(e.rings, e.log);
    ghost var news := e.CopyLines(from, to, addr);
    CopiedTexts(e.sf.file, was, from, to, addr, news);
    IsTexts(e);
    Around(was, addr + 1, news, addr + 1);
    Mixed(rings0, k, e.ring, news);
    CopiesInFile(news, was, from, e.sf.file);
    AddedInFile(e.sf.file, e.sf.file, rings0, k, was[..addr + 1], news, was[addr + 1..]);
    ReadyParts(e);
  }

  lemma PutDropped<T>(r: seq<T>, from: nat, to: nat, x: T)
    requires 1 <= from <= to < |r|
    ensures |Drop(r, from, to)| > from - 1 && Put(Drop(r, from, to), from - 1, [x]) == r[..from] + [x] + r[to + 1..]
  {
  }

  lemma DroppedInFile(file: string, r: seq<Line>, from: nat, to: nat)
    requires RingInFile(file, r) && from <= to < |r|
    ensures RingInFile(file, Drop(r, from, to))
  {
    assert forall y :: y in Drop(r, from, to) ==> y in r;
  }

  lemma JoinedTexts(file: string, file': string, r: seq<Line>, from: nat, to: nat, x: Line)
    requires 1 <= from <= to < |r| && file <= file' && RingInFile(file, r) && Has(file', x, Joined(file, r, from, to + 1))
    ensures var ts := Texts(file, r); Texts(file', r[..from] + [x] + r[to + 1..]) == Put(Drop(ts, from, to), from - 1, [Concat(ts[from..to + 1])])
  {
    hide Texts, Joined, Concat, Put, Drop, Has, RingInFile;
    PutDropped(r, from, to, x);
    JoinedIs(file, r, from, to + 1);
    DroppedInFile(file, r, from, to);
    TextsDrop(file, r, from, to);
    TextsPut(file, file', Drop(r, from, to), from - 1, [x]);
    OneText(file', x, Joined(file, r, from, to + 1));
  }

  lemma JoinedLast(rings: seq<seq<Line>>, k: nat, r: seq<Line>, from: nat, to: nat, x: Line)
    requires 1 <= from <= to < |r| && |rings| == k + 1
    ensures (rings + JoinRings(r, from, to, x))[k + 2] == r[..from] + [x] + r[to + 1..]
  {
  }

  lemma OneText(file: string, x: Line, s: string)
    requires Has(file, x, s)
    ensures Texts(file, [x]) == [s]
  {
  }

  method DoJoin(e: Editor, from: int, to: int)
    requires Ready(e) && InRange(Join(from, to), e.addr_last) && from != to
    modifies e`lp, e`on, e`addr_last, e`current_addr, e`ring, e`active_list, e`active_ndx
    modifies e`ustack, e`rings, e`log, e`modified
    modifies e.sf, e.ring`q_forw, e.ring`q_back
    ensures Ready(e) && old(e.rings) <= e.rings && old(e.log) <= e.log && old(e.sf.file) <= e.sf.file
    ensures old(e.ring) != [] && TextsOf(e) == Edited(Join(from, to), old(TextsOf(e)))
    ensures e.current_addr == Where(Join(from, to), old(e.addr_last), old(e.current_addr))
    ensures Thinner(e.active_list, old(e.active_list))
    ensures forall x :: x in Lines(e.rings) ==> x in Lines(old(e.rings)) || fresh(x)
  {
    hide *;
    Known(e, Join(from, to));
    WhereIs(Join(from, to), e.addr_last, e.current_addr);
    ReadyParts(e);
    ghost var was, rings0, k, file0 := e.ring, e.rings, |e.log|, e.sf.file;
    LinesExist(e.rings, e.log);
    LeftIsThinner(e.isglobal, e.active_list, e.ring[from..to + 1]);
    ghost var x := e.JoinLines(from, to);
    JoinedTexts(file0, e.sf.file, was, from, to, x);
    JoinedLast(rings0, k, was, from, to, x);
    e.RingIsLast();
    IsTexts(e);
    JoinedLines(rings0, k, was, from, to, x);
    ReadyParts(e);
  }

  lemma JoinedLines(rings: seq<seq<Line>>, k: nat, r: seq<Line>, from: int, to: int, x: Line)
    requires 1 <= from <= to < |r| && k < |rings| && rings[k] == r
    ensures forall y :: y in Lines(rings + JoinRings(r, from, to, x)) ==> y in Lines(rings) || y == x
  {
    var r0, r1 := r[..from] + r[to + 1..], r[..from] + [x] + r[to + 1..];
    JoinSays(rings, [], r, from, to, x);
    Mixed(rings, k, r0, []);
    Mixed(rings + [r0], k, r1, [x]);
  }

  lemma AppendInRange(n: int, lines: seq<string>, addr_last: int)
    requires 0 <= n <= addr_last
    ensures InRange(Append(n, lines), addr_last)
  {
  }

  /** delete_lines and then append_lines where they were. */
  method DoChange(e: Editor, from: int, to: int, lines: seq<string>)
    requires Ready(e) && InRange(Change(from, to, lines), e.addr_last)
    modifies e`lp, e`on, e`addr_last, e`current_addr, e`ring, e`active_list, e`active_ndx
    modifies e`ustack, e`rings, e`log, e`modified
    modifies e.sf, e.ring`q_forw, e.ring`q_back
    ensures Ready(e) && old(e.rings) <= e.rings && old(e.log) <= e.log && old(e.sf.file) <= e.sf.file
    ensures old(e.ring) != [] && TextsOf(e) == Edited(Change(from, to, lines), old(TextsOf(e)))
    ensures e.current_addr == Where(Change(from, to, lines), old(e.addr_last), old(e.current_addr))
    ensures Thinner(e.active_list, old(e.active_list))
    ensures forall x :: x in Lines(e.rings) ==> x in Lines(old(e.rings)) || fresh(x)
  {
    hide *;
    Known(e, Change(from, to, lines));
    WhereIs(Change(from, to, lines), e.addr_last, e.current_addr);
    DoDelete(e, from, to);
    AppendInRange(e.current_addr, lines, e.addr_last);
    Known(e, Append(e.current_addr, lines));
    WhereIs(Append(e.current_addr, lines), e.addr_last, e.current_addr);
    DoAppend(e, e.current_addr, lines);
  }

  /** delete_lines, and the line after the deleted ones becomes the current one. */
  method DoDeleteCommand(e: Editor, from: int, to: int)
    requires Ready(e) && InRange(Delete(from, to), e.addr_last)
    modifies e`lp, e`on, e`addr_last, e`current_addr, e`modified, e`ring, e`active_list, e`active_ndx
    modifies e`ustack, e`rings, e`log, e.ring`q_forw, e.ring`q_back
    ensures Ready(e) && old(e.rings) <= e.rings && old(e.log) <= e.log
    ensures old(e.ring) != [] && TextsOf(e) == Edited(Delete(from, to), old(TextsOf(e)))
    ensures e.current_addr == Where(Delete(from, to), old(e.addr_last), old(e.current_addr))
    ensures Lines(e.rings) <= Lines(old(e.rings)) && Thinner(e.active_list, old(e.active_list))
  {
    hide Ready, TextsOf, Drop, Edited, Where, InRange;
    Known(e, Delete(from, to));
    WhereIs(Delete(from, to), e.addr_last, e.current_addr);
    DoDelete(e, from, to);
    var addr := INC_MOD(e.current_addr, e.addr_last);
    if addr != 0 {
      ReadyParts(e);
      LinesExist(e.rings, e.log);
      e.SetCurrent(addr);
      ReadyParts(e);
    }
  }

  lemma RingSize(e: Editor)
    requires Ready(e)
    ensures e.ring != [] && |e.ring| == e.addr_last + 1 && |TextsOf(e)| == |e.ring|
  {
  }

  /** One command. When its addresses are out of range nothing changes. */
  method Execute(e: Editor, c: Command) returns (ok: bool)
    requires Ready(e)
    modifies e`lp, e`on, e`addr_last, e`current_addr, e`modified, e`ring, e`active_list, e`active_ndx
    modifies e`ustack, e`rings, e`log, e.sf, e.ring`q_forw, e.ring`q_back
    ensures Ready(e) && ok == InRange(c, old(e.addr_last))
    ensures old(e.ring) != [] && TextsOf(e) == Edited(c, old(TextsOf(e)))
    ensures e.current_addr == Where(c, old(e.addr_last), old(e.current_addr))
    ensures Obeys(c, old(TextsOf(e)), old(e.current_addr), TextsOf(e), e.current_addr, ok)
    ensures old(e.rings) <= e.rings && old(e.log) <= e.log && old(e.sf.file) <= e.sf.file
    ensures Thinner(e.active_list, old(e.active_list))
    ensures forall x :: x in Lines(e.rings) ==> x in Lines(old(e.rings)) || fresh(x)
  {
    RingSize(e);
    hide *;
    EditedObeys(c, TextsOf(e), e.current_addr);
    ok := InRange(c, e.addr_last);
    if ok {
      LeftIsThinner(true, e.active_list, []);
      LinesExist(e.rings, e.log);
      Known(e, c);
      WhereIs(c, e.addr_last, e.current_addr);
      match c
      case Append(n, lines) => DoAppend(e, n, lines);
      case Change(from, to, lines) => DoChange(e, from, to, lines);
      case Delete(from, to) => DoDeleteCommand(e, from, to);
      case Move(from, to, addr) => DoMove(e, from, to, addr);
      case Copy(from, to, addr) => DoCopy(e, from, to, addr);
      case Join(from, to) =>
        if from != to {
          DoJoin(e, from, to);
        }
    } else {
      LeftIsThinner(true, e.active_list, []);
      OutOfRange(c, TextsOf(e), e.current_addr);
    }
  }

  /** The same, with the current address in range. */
  method ExecuteInRange(e: Editor, c: Command) returns (ok: bool)
    requires Ready(e)
    modifies e`lp, e`on, e`addr_last, e`current_addr, e`modified, e`ring, e`active_list, e`active_ndx
    modifies e`ustack, e`rings, e`log, e.sf, e.ring`q_forw, e.ring`q_back
    ensures Ready(e) && ok == InRange(c, old(e.addr_last)) && e.addr_last == |TextsOf(e)| - 1
    ensures old(e.ring) != [] && old(e.addr_last) == |old(TextsOf(e))| - 1 && TextsOf(e) == Edited(c, old(TextsOf(e)))
    ensures e.current_addr == Where(c, old(e.addr_last), old(e.current_addr))
    ensures 0 <= old(e.current_addr) <= old(e.addr_last) ==> 0 <= e.current_addr <= e.addr_last
    ensures old(e.rings) <= e.rings && old(e.log) <= e.log && old(e.sf.file) <= e.sf.file
    ensures Thinner(e.active_list, old(e.active_list))
    ensures forall x :: x in Lines(e.rings) ==> x in Lines(old(e.rings)) || fresh(x)
  {
    RingSize(e);
    hide *;
    if 0 <= e.current_addr <= e.addr_last {
      WhereInRange(c, TextsOf(e), e.current_addr);
    }
    ok := Execute(e, c);
    RingSize(e);
  }

  lemma RingIn(e: Editor)
    requires Ready(e)
    ensures forall i {:trigger e.ring[i]} :: 0 <= i < |e.ring| ==> e.ring[i] in Lines(e.rings)
  {
    assert forall i {:trigger e.ring[i]} :: 0 <= i < |e.ring| ==> e.ring[i] in e.rings[|e.log|];
  }

  lemma EditedMore(cs: seq<Command>, i: nat, ts: seq<string>)
    requires i < |cs| && ts != []
    ensures EditedAll(cs[..i + 1], ts) == Edited(cs[i], EditedAll(cs[..i], ts))
  {
    assert cs[..i + 1][..i] == cs[..i];
  }

  lemma EditedNone(cs: seq<Command>, ts: seq<string>)
    requires ts != []
    ensures EditedAll(cs[..0], ts) == ts && cs[..|cs|] == cs
  {
  }

  /** Any number of commands. */
  method Run(e: Editor, cs: seq<Command>)
    requires Ready(e)
    modifies e`lp, e`on, e`addr_last, e`current_addr, e`modified, e`ring, e`active_list, e`active_ndx
    modifies e`ustack, e`rings, e`log, e.sf, Lines(e.rings)`q_forw, Lines(e.rings)`q_back
    ensures Ready(e) && old(e.ring) != [] && TextsOf(e) == EditedAll(cs, old(TextsOf(e)))
    ensures 0 <= old(e.current_addr) <= old(e.addr_last) ==> 0 <= e.current_addr <= e.addr_last
    ensures old(e.rings) <= e.rings && old(e.log) <= e.log && old(e.sf.file) <= e.sf.file
    ensures forall x :: x in Lines(e.rings) ==> x in Lines(old(e.rings)) || fresh(x)
  {
    RingSize(e);
    hide *;
    EditedNone(cs, TextsOf(e));
    for i := 0 to |cs|
      invariant 0 <= old(e.current_addr) <= old(e.addr_last) ==> 0 <= e.current_addr <= e.addr_last
      invariant Ready(e) && old(TextsOf(e)) != [] && TextsOf(e) == EditedAll(cs[..i], old(TextsOf(e)))
      invariant old(e.rings) <= e.rings && old(e.log) <= e.log && old(e.sf.file) <= e.sf.file
      invariant forall x :: x in Lines(e.rings) ==> x in Lines(old(e.rings)) || fresh(x)
    {
      RingIn(e);
      EditedMore(cs, i, old(TextsOf(e)));
      var ok := ExecuteInRange(e, cs[i]);
    }
  }

  lemma NewLog(e: Editor)
    requires e.rings == [e.ring]
    ensures forall x :: x in Lines(e.rings) ==> x in e.ring
    ensures forall x :: x in e.ring ==> x in Lines(e.rings)
  {
    assert e.rings[0] == e.ring;
  }

  /** A run of commands after the undo stack was cleared, as for a command outside a global one. */
  method ClearAndRun(e: Editor, cs: seq<Command>)
    requires Ready(e)
    modifies e`lp, e`on, e`addr_last, e`current_addr, e`modified, e`ring, e`active_list, e`active_ndx
    modifies e`ustack, e`rings, e`log, e`u_current_addr, e`u_addr_last, e.sf, e.ring`q_forw, e.ring`q_back
    ensures Ready(e) && old(e.sf.file) <= e.sf.file && old(e.ring) != [] && TextsOf(e) == EditedAll(cs, old(TextsOf(e)))
    ensures [old(e.ring)] <= e.rings && e.u_current_addr == old(e.current_addr) && e.u_addr_last == old(e.addr_last)
    ensures 0 <= old(e.current_addr) <= old(e.addr_last) ==> 0 <= e.current_addr <= e.addr_last
    ensures forall x :: x in Lines(e.rings) ==> x in old(e.ring) || fresh(x)
  {
    hide *;
    ReadyParts(e);
    LinesExist(e.rings, e.log);
    CurrentIn(e);
    ghost var ts := TextsOf(e);
    var freed := e.ClearUndoStack();
    NewLog(e);
    ReadyParts(e);
    assert TextsOf(e) == ts;
    Run(e, cs);
  }

  lemma CurrentIn(e: Editor)
    requires Ready(e)
    ensures InFile(e.sf.file, [e.ring])
  {
    CurrentInFile(e.rings, |e.log|, e.sf.file);
  }

  lemma LinesBack(rings: seq<seq<Line>>)
    ensures Lines(Reverse(rings)) == Lines(rings)
  {
    forall x | x in Lines(Reverse(rings)) ensures x in Lines(rings) {
      var k :| 0 <= k < |rings| && x in Reverse(rings)[k];
      ReverseAt(rings, k);
    }
    forall x | x in Lines(rings) ensures x in Lines(Reverse(rings)) {
      var k :| 0 <= k < |rings| && x in rings[k];
      ReverseAt(rings, |rings| - 1 - k);
      assert x in Reverse(rings)[|rings| - 1 - k];
    }
  }

  lemma BackInFile(file: string, rings: seq<seq<Line>>)
    requires InFile(file, rings)
    ensures InFile(file, Reverse(rings))
  {
    LinesBack(rings);
  }

  lemma ReverseTwice<T>(s: seq<T>)
    ensures Reverse(Reverse(s)) == s && (s != [] ==> Reverse(s) != [] && Reverse(s)[0] == s[|s| - 1])
  {
  }

  /** Undoing any run of commands since the undo stack was cleared brings the same lines back, in
      the same order and with their texts, and the addresses. */
  method RunAndUndo(e: Editor, cs: seq<Command>)
    requires Ready(e) && 0 <= e.current_addr <= e.addr_last
    modifies e, e.sf, e.ring`q_forw, e.ring`q_back
    ensures Ready(e) && e.ring == old(e.ring) && old(e.sf.file) <= e.sf.file && TextsOf(e) == old(TextsOf(e))
    ensures e.addr_last == old(e.addr_last) && e.current_addr == old(e.current_addr)
  {
    hide *;
    CurrentIn(e);
    SameTexts(e.sf.file, e.ring);
    IsTexts(e);
    ClearAndRun(e, cs);
    ReadyParts(e);
    BackInFile(e.sf.file, e.rings);
    LinesExist(e.rings, e.log);
    var ok := e.PopUndoStack();
    assert ok;
    ReadyParts(e);
    IsTexts(e);
  }

  lemma SameTexts(file: string, r: seq<Line>)
    requires InFile(file, [r])
    ensures forall file' :: file <= file' ==> Texts(file', r) == Texts(file, r)
  {
    CurrentInFile([r], 0, file);
    forall file' | file <= file' ensures Texts(file', r) == Texts(file, r) {
      TextsLater(file, file', r);
    }
  }

  /** Undoing an undo brings back the edited state, and the undo stack is worth what it was. */
  method UndoTwice(e: Editor)
    requires Ready(e) && 0 <= e.current_addr <= e.addr_last && e.u_current_addr >= 0 && e.u_addr_last >= 0
    modifies e, e.sf, Lines(e.rings)`q_forw, Lines(e.rings)`q_back
    ensures Ready(e) && e.ring == old(e.ring) && e.addr_last == old(e.addr_last) && e.current_addr == old(e.current_addr)
    ensures e.rings == old(e.rings) && e.log == old(e.log)
    ensures e.u_addr_last == old(e.u_addr_last) && e.u_current_addr == old(e.u_current_addr)
  {
    e.Size();
    hide *;
    ReadyParts(e);
    ghost var rings0, log0 := e.rings, e.log;
    ReverseTwice(rings0);
    UndoneTwice(log0);
    LinesBack(rings0);
    LinesExist(rings0, log0);
    var ok := e.PopUndoStack();
    ok := e.PopUndoStack();
    assert ok;
    ReadyParts(e);
  }
}
