/** src/bin/ed: the editor buffer, with the operations that feed the undo stack. */
module EdBuffer {
  import opened EdLinks
  import opened EdMoves
  import opened EdLog
  import opened EdUndo
  import opened EdScratch
  import opened Seqs

  /** One step along a ring, by either link. */
  lemma RingStep(r: seq<Line>, i: nat)
    requires Ring(r) && i < |r|
    ensures r[i].q_forw == r[INC_MOD(i, |r| - 1)]
    ensures r[i].q_back == r[if i == 0 then |r| - 1 else i - 1]
  {
    RingLink(r, i);
    RingLink(r, if i == 0 then |r| - 1 else i - 1);
  }

  lemma RingLink(r: seq<Line>, i: nat)
    requires Ring(r) && i < |r|
    ensures Link(r[i], r[INC_MOD(i, |r| - 1)])
  {
    var c := r + [r[0]];
    assert Link(c[i], c[i + 1]);
  }

  // How one more change extends a log.

  lemma ApartIn<T>(s: seq<T>, t: seq<T>)
    ensures Apart(s, t) <==> forall x :: x in s ==> x !in t
  {
    if !Apart(s, t) {
      var i, j :| 0 <= i < |s| && 0 <= j < |t| && s[i] == t[j];
      assert s[i] in s && t[j] in t;
    }
  }

  /** A change goes on from the last ring. New lines in it come from outside all rings, and lines
      that it takes out are not in the ring that it leads to. */
  lemma LeadsOn(rings: seq<seq<Line>>, log: Log, c: Change)
    requires Leads(rings, log) && WellFormed(c) && Before(c) == rings[|log|] && Distinct(After(c))
    requires forall x :: x in After(c) ==> x in rings[|log|] || (c.Ins? && x in c.seg)
    requires c.Ins? ==> forall x :: x in c.seg ==> x !in Lines(rings)
    requires c.Del? ==> forall x :: x in c.seg ==> x !in After(c)
    ensures Leads(rings + [After(c)], log + [c])
  {
    var rings', log' := rings + [After(c)], log + [c];
    forall k, j | 0 <= k < j < |rings'| && log'[k].Del? ensures Apart(log'[k].seg, rings'[j]) {
      var d := log'[k];
      if j == |rings| {
        if k < |log| {
          assert d == log[k] && Apart(d.seg, rings[|log|]);
          ApartIn(d.seg, rings[|log|]);
          forall x | x in d.seg ensures x !in After(c) {
            assert x in Before(log[k]) && Before(log[k]) == rings[k];
            assert x in Lines(rings);
          }
        }
        ApartIn(d.seg, After(c));
      } else {
        assert rings'[j] == rings[j] && d == log[k];
      }
    }
    forall k, j | 0 <= j <= k < |log'| && log'[k].Ins? ensures Apart(log'[k].seg, rings'[j]) {
      if k == |log| {
        forall x | x in c.seg ensures x !in rings[j] {
          assert x in rings[j] ==> x in Lines(rings);
        }
        ApartIn(c.seg, rings[j]);
      } else {
        assert rings'[j] == rings[j] && log'[k] == log[k];
      }
    }
    forall k | 0 <= k < |log'| ensures WellFormed(log'[k]) && Before(log'[k]) == rings'[k] && After(log'[k]) == rings'[k + 1] {
      if k < |log| {
        assert log'[k] == log[k];
      }
    }
    forall k | 0 <= k < |rings'| ensures Distinct(rings'[k]) {
      if k < |rings| {
        assert rings'[k] == rings[k];
      }
    }
  }

  lemma LinesOn(rings: seq<seq<Line>>, r: seq<Line>)
    ensures Lines(rings + [r]) == Lines(rings) + set x | x in r
  {
    var rs := rings + [r];
    forall x | x in Lines(rings) + set x | x in r ensures x in Lines(rs) {
      if x in Lines(rings) {
        var k :| 0 <= k < |rings| && x in rings[k];
        assert x in rs[k];
      } else {
        assert x in rs[|rings|];
      }
    }
  }

  /** The lines that were taken out are none of those that the next change may relink. */
  lemma OutOfRing(rings: seq<seq<Line>>, log: Log, j: nat)
    requires Leads(rings, log) && j < |log| && log[j].Del?
    ensures forall y :: y in log[j].seg ==> y !in rings[|log|] && y in Lines(rings)
  {
    var c := log[j];
    assert Apart(c.seg, rings[|log|]);
    ApartIn(c.seg, rings[|log|]);
    forall y | y in c.seg ensures y in Lines(rings) {
      assert y in Before(c) && Before(c) == rings[j];
    }
  }

  lemma BelongsOn(us: seq<Undo>, es: seq<Undo>, log: Log, c: Change)
    requires Belongs(us, |us|, log, |log|) && WellFormed(c)
    requires |es| == |Entries(c)| && forall i :: 0 <= i < |es| ==> Norm(es[i]) == Entries(c)[i]
    ensures Belongs(us + es, |us + es|, log + [c], |log| + 1)
  {
    var log' := log + [c];
    assert log[..|log|] == log && log'[..|log'|] == log' && log'[..|log|] == log;
    assert AllWellFormed(log');
    assert Flat(log') == Flat(log) + Entries(c);
  }

  lemma HeldOn(log: Log, c: Change)
    requires AllWellFormed(log) && WellFormed(c) && HeldAt(log, |log|) && (c.Del? ==> Held(c))
    ensures AllWellFormed(log + [c]) && HeldAt(log + [c], |log| + 1)
  {
    var log' := log + [c];
    forall j | 0 <= j < |log'| && log'[j].Del? ensures Held(log'[j]) {
      if j < |log| {
        assert log'[j] == log[j];
      }
    }
  }

  /** The scratch file holds s as the text of x. */
  ghost predicate Has(file: string, x: Line, s: string) {
    x.seek + x.len <= |file| && file[x.seek..x.seek + x.len] == s
  }

  ghost predicate HaveAll(file: string, xs: seq<Line>, ss: seq<string>) {
    |xs| == |ss| && forall i {:trigger xs[i]} :: 0 <= i < |xs| ==> Has(file, xs[i], ss[i])
  }

  /** All lines that there are, or that undoing can bring back, have their text in the file. */
  ghost predicate InFile(file: string, rings: seq<seq<Line>>) {
    forall x :: x in Lines(rings) ==> x.seek + x.len <= |file|
  }

  lemma HaveMore(file: string, more: string, xs: seq<Line>, ss: seq<string>, x: Line)
    requires HaveAll(file, xs, ss) && Has(file + more, x, more)
    ensures HaveAll(file + more, xs + [x], ss + [more])
  {
    forall i | 0 <= i < |xs| ensures Has(file + more, xs[i], ss[i]) {
      assert Has(file, xs[i], ss[i]);
      var x := xs[i];
      assert (file + more)[x.seek..x.seek + x.len] == file[x.seek..x.seek + x.len];
    }
  }

  lemma HaveInFile(file: string, xs: seq<Line>, ss: seq<string>)
    requires HaveAll(file, xs, ss)
    ensures RingInFile(file, xs)
  {
  }

  /** What append_lines takes of its input: the lines before the first that is a single period. */
  function Taken(lines: seq<string>): seq<string> {
    if lines == [] || lines[0] == "." then [] else [lines[0]] + Taken(lines[1..])
  }

  lemma TakenOn(lines: seq<string>, i: nat)
    requires i < |lines| && lines[i] != "." && Taken(lines) == lines[..i] + Taken(lines[i..])
    ensures lines[..i + 1] == lines[..i] + [lines[i]] && Taken(lines) == lines[..i + 1] + Taken(lines[i + 1..])
  {
    var rest := lines[i..];
    assert rest[0] == lines[i] && rest[1..] == lines[i + 1..];
    assert Taken(rest) == [lines[i]] + Taken(lines[i + 1..]);
    Assoc(lines[..i], [lines[i]], Taken(lines[i + 1..]));
  }

  lemma Slices<T>(s: seq<T>, i: nat, j: nat, k: nat)
    requires i <= j <= k <= |s|
    ensures s[..i] + s[i..j] + s[j..k] + s[k..] == s
  {
  }

  lemma SameMembers<T>(a: seq<T>, x: seq<T>, y: seq<T>, b: seq<T>)
    ensures forall z :: z in a + x + y + b <==> z in a + y + x + b
  {
  }

  ghost predicate RingInFile(file: string, xs: seq<Line>) {
    forall x :: x in xs ==> x.seek + x.len <= |file|
  }

  /** The text of x, for a file that has it. */
  function TextOf(file: string, x: Line): string {
    if x.seek + x.len <= |file| then file[x.seek..x.seek + x.len] else ""
  }

  /** The texts of the lines of r from the first of two indices up to the second. */
  function Joined(file: string, r: seq<Line>, from: nat, end: nat): string
    requires end <= |r|
    decreases end
  {
    if end <= from then "" else Joined(file, r, from, end - 1) + TextOf(file, r[end - 1])
  }

  lemma JoinStep(file: string, r: seq<Line>, from: nat, k: nat)
    requires from <= k < |r| && RingInFile(file, r)
    ensures r[k].seek + r[k].len <= |file|
    ensures Joined(file, r, from, k + 1) == Joined(file, r, from, k) + file[r[k].seek..r[k].seek + r[k].len]
  {
  }

  lemma CurrentInFile(rings: seq<seq<Line>>, k: nat, file: string)
    requires k < |rings| && InFile(file, rings)
    ensures RingInFile(file, rings[k])
  {
    assert forall x :: x in rings[k] ==> x in Lines(rings);
  }

  lemma AddedInFile(file: string, file': string, rings: seq<seq<Line>>, k: nat, a: seq<Line>, news: seq<Line>, b: seq<Line>)
    requires InFile(file, rings) && file <= file' && k < |rings| && rings[k] == a + b && RingInFile(file', news)
    ensures InFile(file', rings) && InFile(file', rings + [a + news + b])
  {
    CurrentInFile(rings, k, file);
    LinesOn(rings, a + news + b);
    forall x | x in a + news + b ensures x.seek + x.len <= |file'| {
      assert x in a + b || x in news;
    }
  }

  lemma CutInFile(file: string, rings: seq<seq<Line>>, k: nat, r: seq<Line>)
    requires InFile(file, rings) && k < |rings| && forall x :: x in r ==> x in rings[k]
    ensures InFile(file, rings + [r])
  {
    CurrentInFile(rings, k, file);
    LinesOn(rings, r);
  }

  /** The lines that the changes from k on take out of the ring. */
  ghost function DelLines(log: Log, k: nat): set<Line> {
    set j, x | k <= j < |log| && log[j].Del? && x in log[j].seg :: x
  }

  /** No line is taken out twice without having been put back. */
  lemma DelLinesApart(rings: seq<seq<Line>>, log: Log, k: nat)
    requires Leads(rings, log) && k < |log|
    ensures !log[k].Del? ==> DelLines(log, k) == DelLines(log, k + 1)
    ensures log[k].Del? ==> DelLines(log, k) == DelLines(log, k + 1) + set x | x in log[k].seg
    ensures log[k].Del? ==> Distinct(log[k].seg) && forall x :: x in log[k].seg ==> x !in DelLines(log, k + 1) && x !in rings[|log|]
  {
    if log[k].Del? {
      var c := log[k];
      DistinctThree(c.a, c.seg, c.b);
      forall x | x in c.seg ensures x !in DelLines(log, k + 1) && x !in rings[|log|] {
        assert Apart(c.seg, rings[|log|]);
        ApartIn(c.seg, rings[|log|]);
        if x in DelLines(log, k + 1) {
          var j :| k + 1 <= j < |log| && log[j].Del? && x in log[j].seg;
          assert x in Before(log[j]) && Before(log[j]) == rings[j];
          ApartIn(c.seg, rings[j]);
        }
      }
    }
  }

  lemma DelLinesOut(rings: seq<seq<Line>>, log: Log)
    requires Leads(rings, log)
    ensures forall x :: x in DelLines(log, 0) ==> x !in rings[|log|]
  {
    forall x | x in DelLines(log, 0) ensures x !in rings[|log|] {
      var j :| 0 <= j < |log| && log[j].Del? && x in log[j].seg;
      OutOfRing(rings, log, j);
    }
  }

  /** The active list after the lines in gone have been taken off, if there is a global command. */
  ghost function Left(isglobal: bool, list: seq<Line?>, gone: seq<Line>): (left: seq<Line?>)
    ensures |left| == |list|
  {
    if isglobal then seq(|list|, k requires 0 <= k < |list| => if list[k] in gone then null else list[k]) else list
  }

  lemma SameIndex(r: seq<Line>, i: nat, j: nat)
    requires Ring(r) && i < |r| && j < |r| && r[i] == r[j]
    ensures i == j
  {
  }

  /** The loop of join_lines that collects the texts. */
  method JoinFrom(sf: Scratch, bp0: Line, ep: Line, ghost r: seq<Line>, ghost from: int, ghost to: int) returns (buf: string)
    requires sf.Valid() && Ring(r) && RingInFile(sf.file, r) && 1 <= from <= to < |r|
    requires bp0 == r[from] && ep == r[INC_MOD(to, |r| - 1)]
    modifies sf
    ensures sf.Valid() && sf.file == old(sf.file) && buf == Joined(sf.file, r, from, to + 1)
  {
    hide Ring, RingInFile, Scratch.Valid;
    var bp := bp0;
    buf := "";
    ghost var k := from;
    while bp != ep
      invariant from <= k <= to + 1 && bp == r[if k < |r| then k else 0]
      invariant sf.Valid() && sf.file == old(sf.file) && Ring(r)
      invariant buf == Joined(sf.file, r, from, k)
      decreases 1 + to - k
    {
      JoinStep(sf.file, r, from, k);
      RingStep(r, k);
      var s := sf.Get(bp.seek, bp.len);
      buf := buf + s;
      bp := bp.q_forw;
      k := k + 1;
    }
    SameIndex(r, if k < |r| then k else 0, INC_MOD(to, |r| - 1));
  }

  /** The copies made so far of the lines of r from first on. */
  ghost predicate Copies(news: seq<Line>, r: seq<Line>, first: int)
    reads news, r
  {
    && 0 <= first && first + |news| <= |r|
    && forall i {:trigger news[i]} :: 0 <= i < |news| ==> news[i].seek == r[first + i].seek && news[i].len == r[first + i].len
  }

  /** The line after the one that was copied last is still next to it. */
  lemma NextToCopy(r: seq<Line>, a: seq<Line>, news: seq<Line>, b: seq<Line>, q: nat)
    requires Ring(r) && r == a + news + b && q + 1 < |a + b| && q != |a| - 1
    ensures (a + b)[q].q_forw == (a + b)[q + 1]
  {
    RingStep(r, if q < |a| then q else q + |news|);
  }

  lemma CopiesInFile(news: seq<Line>, r: seq<Line>, first: int, file: string)
    requires Copies(news, r, first) && RingInFile(file, r)
    ensures RingInFile(file, news)
  {
  }

  lemma CopiesFit(news: seq<Line>, r: seq<Line>, first: int)
    requires Copies(news, r, first)
    ensures 0 <= first && first + |news| <= |r|
  {
  }

  lemma NoCopies(r: seq<Line>, first: int)
    requires 0 <= first <= |r|
    ensures Copies([], r, first)
  {
  }

  /** The line after the last copy is the one that followed the place. */
  lemma NextToCopies(a: seq<Line>, news: seq<Line>, b: seq<Line>)
    ensures b != [] ==> (a + news + b)[|a| + |news|] == b[0] == (a + b)[|a|]
  {
  }

  lemma DelHeld(c: Change)
    requires c.Del? && WellFormed(c) && Detached(c.a, c.seg, c.b)
    ensures Held(c)
  {
  }

  lemma DelEntries(r: seq<Line>, from: int, to: int)
    requires 1 <= from <= to < |r|
    ensures var c := Del(r[..from], r[from..to + 1], r[to + 1..]);
      && WellFormed(c) && Before(c) == r && After(c) == r[..from] + r[to + 1..]
      && Entries(c) == [Norm(Undo(UDEL, r[from], r[to]))]
  {
  }

  /** Moving the lines first..second of r behind the line addr, when that changes anything. */
  ghost function MovOf(r: seq<Line>, first: int, second: int, addr: int): Change
    requires 1 <= first <= second < |r| && 0 <= addr < |r| && (addr < first - 1 || addr > second)
  {
    if addr < first then Mov(r[..addr + 1], r[addr + 1..first], r[first..second + 1], r[second + 1..], true)
    else Mov(r[..first], r[first..second + 1], r[second + 1..addr + 1], r[addr + 1..], false)
  }

  lemma MovParts(r: seq<Line>, first: int, second: int, addr: int)
    requires 1 <= first <= second < |r| && 0 <= addr < |r| && (addr < first - 1 || addr > second)
    ensures var c := MovOf(r, first, second, addr); c.Mov? && WellFormed(c) && c.a + c.x + c.y + c.b == r
  {
    if addr < first {
      Slices(r, addr + 1, first, second + 1);
    } else {
      Slices(r, first, second + 1, addr + 1);
    }
  }

  lemma MovSays(r: seq<Line>, first: int, second: int, addr: int)
    requires 1 <= first <= second < |r| && 0 <= addr < |r| && (addr < first - 1 || addr > second)
    ensures var c := MovOf(r, first, second, addr);
      && c.Mov? && WellFormed(c) && Before(c) == r && c.a + c.x + c.y + c.b == r && After(c) == c.a + c.y + c.x + c.b
      && |After(c)| == |r| && (forall y :: y in r <==> y in After(c))
  {
    MovParts(r, first, second, addr);
    hide MovOf;
    var c := MovOf(r, first, second, addr);
    SameMembers(c.a, c.x, c.y, c.b);
  }

  lemma MovEnds(r: seq<Line>, first: int, second: int, addr: int)
    requires 1 <= first <= second < |r| && 0 <= addr < |r| && (addr < first - 1 || addr > second)
    ensures var c := MovOf(r, first, second, addr); var b2, a2, b1, a1 := r[addr], r[INC_MOD(addr, |r| - 1)], r[first - 1], r[INC_MOD(second, |r| - 1)];
      && c.Mov? && WellFormed(c) && c.up == (addr < first) && |c.a| == (if addr < first then addr + 1 else first)
      && (c.up ==> b2 == Last(c.a) && a2 == c.x[0] && b1 == Last(c.x) && a1 == Next(c.a, c.b))
      && (!c.up ==> b2 == Last(c.y) && a2 == Next(c.a, c.b) && b1 == Last(c.a) && a1 == c.y[0])
  {
  }

  lemma MovEndsIn(r: seq<Line>, c: Change)
    requires c.Mov? && WellFormed(c) && r == c.a + c.x + c.y + c.b
    ensures Last(c.a) in r && Last(c.x) in r && Last(c.y) in r && c.x[0] in r && c.y[0] in r && Next(c.a, c.b) in r
    ensures var r' := c.a + c.y + c.x + c.b; |r'| == |r| && r'[0] == r[0] && r'[|c.a| - 1] == r[|c.a| - 1] == Last(c.a)
  {
    Ends(c);
  }

  lemma MovEntries(r: seq<Line>, first: int, second: int, addr: int)
    requires 1 <= first <= second < |r| && 0 <= addr < |r| && (addr < first - 1 || addr > second)
    ensures 0 <= INC_MOD(second, |r| - 1) < |r| && 0 <= INC_MOD(addr, |r| - 1) < |r|
    ensures var c := MovOf(r, first, second, addr);
      && WellFormed(c)
      && Entries(c) == [Undo(UMOV, r[first - 1], r[INC_MOD(second, |r| - 1)])] + [Undo(UMOV, r[addr], r[INC_MOD(addr, |r| - 1)])]
  {
    MovEnds(r, first, second, addr);
  }

  lemma MovKeeps(r: seq<Line>, first: int, second: int, addr: int)
    requires 1 <= first <= second < |r| && 0 <= addr < |r| && (addr < first - 1 || addr > second)
    ensures 0 <= INC_MOD(second, |r| - 1) < |r| && 0 <= INC_MOD(addr, |r| - 1) < |r|
    ensures forall y :: y in r ==> y in After(MovOf(r, first, second, addr))
  {
    MovSays(r, first, second, addr);
  }

  /** Where the moved lines are afterwards. */
  lemma MovedTo(r: seq<Line>, first: int, second: int, addr: int)
    requires 1 <= first <= second < |r| && 0 <= addr < |r| && (addr < first - 1 || addr > second)
    ensures var r', k := After(MovOf(r, first, second, addr)), second - first + 1;
      var i := if addr < first then addr + 1 else addr + 1 - k;
      && |r'| == |r| && 1 <= i && i + k <= |r| && r'[i..i + k] == r[first..second + 1]
      && r'[i - 1] == r[addr] && r'[INC_MOD(i + k - 1, |r| - 1)] == r[INC_MOD(addr, |r| - 1)]
  {
  }

  lemma MovedLink(r: seq<Line>, was: seq<Line>, first: int, second: int, addr: int)
    requires 1 <= first <= second < |was| && 0 <= addr < |was| && (addr < first - 1 || addr > second)
    requires Ring(r) && r == After(MovOf(was, first, second, addr))
    ensures was[addr].q_forw == r[if addr < first then addr + 1 else addr + 1 - (second - first + 1)]
  {
    MovedTo(was, first, second, addr);
    hide MovOf, After, Ring;
    RingStep(r, (if addr < first then addr + 1 else addr + 1 - (second - first + 1)) - 1);
  }

  lemma EntriesNorm(c: Change)
    requires WellFormed(c)
    ensures forall i :: 0 <= i < |Entries(c)| ==> Norm(Entries(c)[i]) == Entries(c)[i]
  {
  }

  lemma PartOf(was: seq<Line>, from: int, to: int)
    requires 1 <= from <= to < |was|
    ensures var r := was[..from] + was[to + 1..];
      |r| >= from && r[..from] == was[..from] && r[from..] == was[to + 1..] && (forall x :: x in r ==> x in was)
      && forall i {:trigger r[i]} :: 0 <= i < |r| ==> r[i] in was
  {
  }

  ghost function JoinRings(r: seq<Line>, from: int, to: int, x: Line): (rs: seq<seq<Line>>)
    requires 1 <= from <= to < |r|
    ensures |rs| == 2
  {
    [r[..from] + r[to + 1..], r[..from] + [x] + r[to + 1..]]
  }

  ghost function JoinLog(r: seq<Line>, from: int, to: int, x: Line): Log
    requires 1 <= from <= to < |r|
  {
    [Del(r[..from], r[from..to + 1], r[to + 1..]), Ins(r[..from], [x], r[to + 1..])]
  }

  lemma JoinSays(rings0: seq<seq<Line>>, log0: Log, r: seq<Line>, from: int, to: int, x: Line)
    requires 1 <= from <= to < |r|
    ensures rings0 + JoinRings(r, from, to, x) == rings0 + [r[..from] + r[to + 1..]] + [r[..from] + [x] + r[to + 1..]]
    ensures log0 + JoinLog(r, from, to, x) == log0 + [Del(r[..from], r[from..to + 1], r[to + 1..])] + [Ins(r[..from], [x], r[to + 1..])]
    ensures JoinRings(r, from, to, x)[1] == r[..from] + [x] + r[to + 1..]
  {
  }

  lemma LeadsSize(rings0: seq<seq<Line>>, log0: Log)
    requires Leads(rings0, log0)
    ensures |rings0| == |log0| + 1 && AllWellFormed(log0)
  {
  }

  lemma TopKind(u: Undo, c: Change)
    requires WellFormed(c) && Norm(u) == Entries(c)[|Entries(c)| - 1]
    ensures u.kind == UDEL <==> c.Del?
    ensures c.Del? ==> u.h == c.seg[0] && u.t == Last(c.seg)
  {
  }

  lemma MovKind(u: Undo, c: Change)
    requires WellFormed(c) && c.Mov? && Norm(u) == Entries(c)[0]
    ensures u.kind in {UMOV, VMOV}
  {
  }

  lemma JoinedBy(r: seq<Line>, rings0: seq<seq<Line>>, log0: Log, from: int, to: int, x: Line, r1: seq<Line>, r2: seq<Line>)
    requires 1 <= from <= to < |r| && r1 == r[..from] + r[to + 1..]
    requires r2 == r1[..from - 1 + 1] + [x] + r1[from - 1 + 1..]
    ensures rings0 + [r1] + [r2] == rings0 + JoinRings(r, from, to, x)
    ensures log0 + [Del(r[..from], r[from..to + 1], r[to + 1..])] + [Ins(r1[..from - 1 + 1], [x], r1[from - 1 + 1..])] == log0 + JoinLog(r, from, to, x)
  {
    PartOf(r, from, to);
    JoinSays(rings0, log0, r, from, to, x);
  }

  class Editor {
    const head: Line
    const sf: Scratch
    ghost var ring: seq<Line>
    // the cursor of get_addressed_line_node
    var lp: Line
    var on: int

    var current_addr: int
    var addr_last: int
    var modified: bool
    var isglobal: bool

    var ustack: seq<Undo>
    var u_current_addr: int
    var u_addr_last: int
    ghost var rings: seq<seq<Line>>
    ghost var log: Log

    // glbl.c
    var active_list: seq<Line?>
    var active_ptr: nat
    var active_ndx: nat
    ghost var matched: seq<Line>

    /** The ring of lines and the cached cursor. */
    ghost predicate Buffer()
      reads this`ring, this`lp, this`on, this`addr_last, ring
    {
      && Ring(ring) && ring[0] == head && addr_last == |ring| - 1
      && 0 <= on <= addr_last && lp == ring[on]
    }

    /** An undo stack us0, the log that it belongs to and the rings of the log. */
    ghost predicate Recorded(rings0: seq<seq<Line>>, log0: Log, us0: seq<Undo>)
      reads this`u_addr_last
    {
      && Leads(rings0, log0)
      && (forall k {:trigger rings0[k]} :: 0 <= k < |rings0| ==> rings0[k] != [] && rings0[k][0] == head)
      && Belongs(us0, |us0|, log0, |log0|)
      && (u_addr_last != -1 ==> u_addr_last == |rings0[0]| - 1)
    }

    /** The same, and the lines that were taken out know their place. */
    ghost predicate Tracked(rings0: seq<seq<Line>>, log0: Log, us0: seq<Undo>)
      reads this`u_addr_last, LogLines(log0)
    {
      Recorded(rings0, log0, us0) && HeldAt(log0, |log0|)
    }

    /** The undo stack records how the present ring came about. */
    ghost predicate Undoable()
      reads this`ring, this`rings, this`log, this`ustack, this`u_addr_last, LogLines(log)
    {
      |rings| == |log| + 1 && rings[|log|] == ring && Tracked(rings, log, ustack)
    }

    /** The active list of a global command: what is left of the matched lines, each in its slot. */
    ghost predicate Slots()
      reads this`active_list, this`active_ptr, this`active_ndx, this`matched
    {
      && active_ptr <= |active_list| == |matched| && (active_list != [] ==> active_ndx < |active_list|)
      && Distinct(matched)
      && (forall k {:trigger active_list[k]} :: 0 <= k < |active_list| && active_list[k] != null ==> active_list[k] == matched[k])
    }

    /** During a global command, the lines that are still to come are in r. */
    ghost predicate ActiveIn(r: seq<Line>)
      reads this`isglobal, this`active_list, this`active_ptr, this`active_ndx, this`matched
    {
      && Slots()
      && (isglobal ==> forall k {:trigger active_list[k]} :: active_ptr <= k < |active_list| && active_list[k] != null ==> active_list[k] in r)
    }

    ghost predicate Active()
      reads this`ring, this`isglobal, this`active_list, this`active_ptr, this`active_ndx, this`matched
    {
      ActiveIn(ring)
    }

    ghost predicate Valid()
      reads this, ring, LogLines(log)
    {
      Buffer() && Undoable() && Active()
    }

    constructor ()
      ensures Valid() && ring == [head] && fresh(head) && fresh(sf) && rings == [ring] && log == []
      ensures sf.Valid() && sf.file == "" && InFile(sf.file, rings) && current_addr == addr_last == 0
      ensures !isglobal && u_current_addr == u_addr_last == -1
    {
      head := new Line(0, 0);
      sf := new Scratch();
      lp, on := head, 0;
      ring, rings, log := [head], [[head]], [];
      current_addr, addr_last, modified, isglobal := 0, 0, false, false;
      ustack, u_current_addr, u_addr_last := [], -1, -1;
      active_list, active_ptr, active_ndx, matched := [], 0, 0, [];
      new;
      REQUE(head, head);
    }

    method WalkForw(n: int)
      requires Buffer() && on <= n <= addr_last
      modifies this`lp, this`on
      ensures Buffer() && on == n
    {
      while on < n
        invariant Buffer() && on <= n
      {
        RingStep(ring, on);
        lp := lp.q_forw;
        on := on + 1;
      }
    }

    method WalkBack(n: int)
      requires Buffer() && n >= 0
      modifies this`lp, this`on
      ensures Buffer() && on == if n <= old(on) then n else old(on)
    {
      while on > n
        invariant Buffer() && (n <= on || on == old(on))
      {
        RingStep(ring, on);
        lp := lp.q_back;
        on := on - 1;
      }
    }

    /** get_addressed_line_node, with its four walks. The cursor is true before and after. An
        address past the end yields the last line. */
    method GetAddressedLineNode(n: int) returns (r: Line)
      requires Buffer() && n >= 0
      modifies this`lp, this`on
      ensures Buffer()
      ensures on == (if n <= addr_last then n else addr_last) && r == ring[on] == lp
    {
      if n > on {
        if n <= (on + addr_last) / 2 {
          WalkForw(n);
        } else {
          RingStep(ring, 0);
          lp := head.q_back;
          on := addr_last;
          WalkBack(n);
        }
      } else {
        if n >= on / 2 {
          WalkBack(n);
        } else {
          lp := head;
          on := 0;
          WalkForw(n);
        }
      }
      r := lp;
    }

    /** get_line_node_addr: None stands for ERR. A line that is not in the ring goes unnoticed when
        the buffer is empty. */
    method GetLineNodeAddr(x: Line) returns (r: int)
      requires Buffer()
      ensures x in ring ==> 0 <= r < |ring| && ring[r] == x
      ensures x !in ring ==> r == if addr_last == 0 then 0 else -2
    {
      var cp := head;
      var n := 0;
      while cp != x
        invariant 0 <= n < |ring| && cp == ring[n]
        invariant x !in ring[..n]
        decreases |ring| - n
      {
        RingStep(ring, n);
        assert ring[..n + 1] == ring[..n] + [ring[n]];
        cp := cp.q_forw;
        if cp == head {
          assert n == |ring| - 1 by {
            assert Distinct(ring);
          }
          assert ring[..n + 1] == ring;
          if n != 0 {
            return -2;
          }
          return n;
        }
        n := n + 1;
      }
      if n != 0 && cp == head {
        return -2;
      }
      return n;
    }

    /** add_line_node */
    method AddLineNode(x: Line)
      requires Buffer() && x !in ring && 0 <= current_addr <= addr_last
      modifies this`lp, this`on, this`addr_last, this`current_addr, this`ring
      modifies x`q_forw, x`q_back, ring`q_forw, ring`q_back
      ensures Buffer()
      ensures ring == old(ring[..current_addr + 1]) + [x] + old(ring[current_addr + 1..])
      ensures current_addr == old(current_addr) + 1
    {
      ghost var a, b := ring[..current_addr + 1], ring[current_addr + 1..];
      assert ring == a + b;
      var cp := GetAddressedLineNode(current_addr);
      assert cp == Last(a);
      RingStep(ring, on);
      assert Next(a, b) == ring[if b == [] then 0 else |a|];
      INSQUE(x, cp, a, b);
      ring := a + [x] + b;
      addr_last := addr_last + 1;
      current_addr := current_addr + 1;
    }

    /** push_undo_stack: the type, and the lines at the addresses to and from. */
    method PushUndoStack(kind: Kind, from: int, to: int) returns (up: int)
      requires Buffer() && from >= 0 && to >= 0
      modifies this`lp, this`on, this`ustack
      ensures Buffer() && up == |ustack| - 1 && on == if from <= addr_last then from else addr_last
      ensures from <= addr_last && to <= addr_last ==> ustack == old(ustack) + [Undo(kind, ring[from], ring[to])]
      ensures |ustack| == old(|ustack|) + 1 && ustack[..up] == old(ustack)
    {
      var t := GetAddressedLineNode(to);
      var h := GetAddressedLineNode(from);
      ustack := ustack + [Undo(kind, h, t)];
      up := |ustack| - 1;
    }

    /** One undo entry covers all the lines that have been added. */
    ghost predicate Covered(rings0: seq<seq<Line>>, log0: Log, us0: seq<Undo>, a: seq<Line>, news: seq<Line>, b: seq<Line>, up: int)
      reads this`ring, this`ustack, this`rings, this`log
    {
      && ring == a + news + b
      && if news == [] then
           up == -1 && ustack == us0 && rings == rings0 && log == log0
         else
           up == |us0| && ustack == us0 + [Undo(UADD, news[0], Last(news))]
           && rings == rings0 + [ring] && log == log0 + [Ins(a, news, b)]
    }

    /** In the middle of adding lines: news have been added between a and b. */
    ghost predicate Adding(rings0: seq<seq<Line>>, log0: Log, us0: seq<Undo>, a: seq<Line>, news: seq<Line>, b: seq<Line>, up: int)
      reads this`ring, this`rings, this`log, this`ustack, this`u_addr_last, LogLines(log0)
    {
      && Tracked(rings0, log0, us0)
      && a != [] && |rings0| == |log0| + 1 && rings0[|log0|] == a + b
      && (forall x :: x in news ==> x !in Lines(rings0))
      && Covered(rings0, log0, us0, a, news, b, up)
    }

    lemma Added(rings0: seq<seq<Line>>, log0: Log, us0: seq<Undo>, a: seq<Line>, news: seq<Line>, b: seq<Line>, up: int)
      requires Buffer() && Adding(rings0, log0, us0, a, news, b, up)
      ensures Undoable() && ring == rings[|log|]
    {
      if news != [] {
        var c := Ins(a, news, b);
        LeadsOn(rings0, log0, c);
        BelongsOn(us0, [Undo(UADD, news[0], Last(news))], log0, c);
        HeldOn(log0, c);
        assert rings[0] == rings0[0];
        forall k | 0 <= k < |rings| ensures rings[k] != [] && rings[k][0] == head {
          assert k < |rings0| ==> rings[k] == rings0[k];
        }
      }
    }

    /** add_line_node, with what it leaves alone. */
    method AddBetween(x: Line, ghost rings0: seq<seq<Line>>, ghost log0: Log, ghost a: seq<Line>, ghost news: seq<Line>, ghost b: seq<Line>)
      requires Buffer() && Leads(rings0, log0) && HeldAt(log0, |log0|)
      requires |rings0| == |log0| + 1 && a != [] && rings0[|log0|] == a + b && ring == a + news + b && current_addr == |a| + |news| - 1
      requires forall y :: y in news + [x] ==> y !in Lines(rings0)
      requires x !in news && Active()
      modifies this`lp, this`on, this`addr_last, this`current_addr, this`ring
      modifies x`q_forw, x`q_back, ring`q_forw, ring`q_back
      ensures Buffer() && HeldAt(log0, |log0|)
      ensures ring == a + (news + [x]) + b && current_addr == old(current_addr) + 1 && ring[current_addr] == x
      ensures Active()
    {
      assert ring[..current_addr + 1] == a + news && ring[current_addr + 1..] == b;
      forall j | 0 <= j < |log0| && log0[j].Del? ensures forall y :: y in log0[j].seg ==> y !in ring && y != x {
        OutOfRing(rings0, log0, j);
        assert x in news + [x];
        forall y | y in log0[j].seg ensures y !in ring {
          assert y !in a + b && (y in news ==> y in news + [x]);
        }
      }
      assert x in news + [x];
      assert forall y :: y in rings0[|log0|] ==> y in Lines(rings0);
      ghost var r0 := ring;
      hide Ring, Leads, Distinct, Apart;
      AddLineNode(x);
      forall j | 0 <= j < |log0| && log0[j].Del? ensures Held(log0[j]) {
        assert old(Held(log0[j]));
        var s := log0[j].seg;
        assert forall y :: y in s ==> y !in r0 && y != x;
        assert forall i :: 0 <= i < |s| ==> s[i] in s;
        assert forall i :: 0 <= i < |s| ==> s[i].q_forw == old(s[i].q_forw);
        assert forall i :: 0 <= i < |s| ==> s[i].q_back == old(s[i].q_back);
      }
      assert ring == a + (news + [x]) + b;
    }

    /** push_undo_stack for the first of the lines; for the others the entry gets a new end. copy_lines
        has the node at hand, and append_lines looks it up. */
    method Record(x: Line, lookup: bool, up0: int, ghost rings0: seq<seq<Line>>, ghost log0: Log, ghost us0: seq<Undo>,
                  ghost a: seq<Line>, ghost news: seq<Line>, ghost b: seq<Line>) returns (up: int)
      requires Buffer() && ring == a + (news + [x]) + b && 0 <= current_addr <= addr_last && ring[current_addr] == x
      requires if news == [] then up0 == -1 && ustack == us0
               else up0 == |us0| && ustack == us0 + [Undo(UADD, news[0], Last(news))]
      modifies this`lp, this`on, this`ustack, this`rings, this`log
      ensures Buffer() && Covered(rings0, log0, us0, a, news + [x], b, up)
    {
      up := up0;
      if up >= 0 {
        var t := x;
        if lookup {
          t := GetAddressedLineNode(current_addr);
        }
        ustack := ustack[up := ustack[up].(t := t)];
      } else {
        up := PushUndoStack(UADD, current_addr, current_addr);
      }
      rings := rings0 + [ring];
      log := log0 + [Ins(a, news + [x], b)];
    }

    /** Lines are being added after a, and current_addr is the last of them. */
    ghost predicate AddingNow(rings0: seq<seq<Line>>, log0: Log, us0: seq<Undo>, a: seq<Line>, news: seq<Line>, b: seq<Line>, up: int)
      reads this`ring, this`lp, this`on, this`addr_last, this`current_addr, this`rings, this`log, this`ustack, this`u_addr_last
      reads this`isglobal, this`active_list, this`active_ptr, this`active_ndx, this`matched
      reads ring, LogLines(log0)
    {
      Buffer() && Active() && Adding(rings0, log0, us0, a, news, b, up) && current_addr == |a| + |news| - 1
    }

    /** One more of the lines that copy_lines, append_lines and join_lines add: add_line_node, and
        then either a new undo entry or a new end for the one that is there. */
    method AddLogged(x: Line, lookup: bool, up0: int, ghost rings0: seq<seq<Line>>, ghost log0: Log, ghost us0: seq<Undo>,
                     ghost a: seq<Line>, ghost news: seq<Line>, ghost b: seq<Line>) returns (up: int)
      requires AddingNow(rings0, log0, us0, a, news, b, up0)
      requires x !in Lines(rings0) && x !in news
      modifies this`lp, this`on, this`addr_last, this`current_addr, this`ring, this`ustack, this`rings, this`log
      modifies x`q_forw, x`q_back, ring`q_forw, ring`q_back
      ensures AddingNow(rings0, log0, us0, a, news + [x], b, up)
    {
      AddBetween(x, rings0, log0, a, news, b);
      assert 0 <= current_addr <= addr_last;
      up := Record(x, lookup, up0, rings0, log0, us0, a, news, b);
    }

    lemma AddingSays(rings0: seq<seq<Line>>, log0: Log, us0: seq<Undo>, a: seq<Line>, news: seq<Line>, b: seq<Line>, up: int)
      requires AddingNow(rings0, log0, us0, a, news, b, up)
      ensures Ring(ring) && ring == a + news + b && current_addr == |a| + |news| - 1 && addr_last == |ring| - 1
      ensures forall i :: 0 <= i < |ring| ==> ring[i] in a + b || ring[i] in news
      ensures forall y :: y in a + b || y in news ==> y in ring
    {
    }

    /** The loop body of copy_lines: dup_line_node and what follows. */
    method CopyOne(np: Line, up0: int, ghost rings0: seq<seq<Line>>, ghost log0: Log, ghost us0: seq<Undo>,
                   ghost a: seq<Line>, ghost news: seq<Line>, ghost b: seq<Line>, ghost first: int) returns (x: Line, up: int)
      requires AddingNow(rings0, log0, us0, a, news, b, up0) && Copies(news, a + b, first)
      requires first + |news| < |a + b| && np == (a + b)[first + |news|]
      modifies this`lp, this`on, this`addr_last, this`current_addr, this`ring, this`ustack, this`rings, this`log
      modifies ring`q_forw, ring`q_back
      ensures fresh(x)
      ensures AddingNow(rings0, log0, us0, a, news + [x], b, up) && Copies(news + [x], a + b, first)
    {
      hide AddingNow;
      LinesExist(rings0, log0);
      AddingSays(rings0, log0, us0, a, news, b, up0);
      x := new Line(np.seek, np.len);
      up := AddLogged(x, false, up0, rings0, log0, us0, a, news, b);
    }

    /** The inner loop of copy_lines: n more copies, from np on. */
    method CopyRun(np0: Line, n0: nat, up0: int, ghost rings0: seq<seq<Line>>, ghost log0: Log, ghost us0: seq<Undo>,
                   ghost a: seq<Line>, ghost news0: seq<Line>, ghost b: seq<Line>, ghost first: int)
      returns (up: int, ghost news: seq<Line>)
      requires AddingNow(rings0, log0, us0, a, news0, b, up0) && Copies(news0, a + b, first)
      requires first + |news0| + n0 <= |a + b| && (n0 > 0 ==> np0 == (a + b)[first + |news0|])
      requires first + |news0| >= |a| || first + |news0| + n0 <= |a|
      modifies this`lp, this`on, this`addr_last, this`current_addr, this`ring, this`ustack, this`rings, this`log
      modifies ring`q_forw, ring`q_back
      ensures AddingNow(rings0, log0, us0, a, news, b, up) && Copies(news, a + b, first)
      ensures |news| == |news0| + n0
      ensures forall y :: y in news ==> y in news0 || fresh(y)
    {
      hide AddingNow, Copies;
      CopiesFit(news0, a + b, first);
      var np: Line?, n: nat := np0, n0;
      up, news := up0, news0;
      AddingSays(rings0, log0, us0, a, news, b, up);
      while n > 0
        invariant AddingNow(rings0, log0, us0, a, news, b, up) && Copies(news, a + b, first)
        invariant n <= n0 && |news| == |news0| + n0 - n
        invariant n > 0 ==> np == (a + b)[first + |news|]
        invariant forall y :: y in news ==> y in news0 || fresh(y)
      {
        n := n - 1;
        AddingSays(rings0, log0, us0, a, news, b, up);
        var x;
        x, up := CopyOne(np, up, rings0, log0, us0, a, news, b, first);
        news := news + [x];
        AddingSays(rings0, log0, us0, a, news, b, up);
        if n > 0 {
          NextToCopy(ring, a, news, b, first + |news| - 1);
        }
        np := np.q_forw;
      }
    }

    /** Before the first line is added, and after the last. */
    lemma StartAdding(a: seq<Line>, b: seq<Line>)
      requires Valid() && 0 <= current_addr <= addr_last && a == ring[..current_addr + 1] && b == ring[current_addr + 1..]
      ensures AddingNow(rings, log, ustack, a, [], b, -1)
    {
      assert ring == a + b && ring == a + [] + b;
    }

    lemma StopAdding(rings0: seq<seq<Line>>, log0: Log, us0: seq<Undo>, a: seq<Line>, news: seq<Line>, b: seq<Line>, up: int)
      requires AddingNow(rings0, log0, us0, a, news, b, up)
      ensures Valid()
      ensures news != [] ==> rings == rings0 + [ring] && log == log0 + [Ins(a, news, b)]
    {
      Added(rings0, log0, us0, a, news, b, up);
    }

    /** The cursor may move while lines are being added. */
    method NodeWhileAdding(n: int, up: int, ghost rings0: seq<seq<Line>>, ghost log0: Log, ghost us0: seq<Undo>,
                           ghost a: seq<Line>, ghost news: seq<Line>, ghost b: seq<Line>) returns (r: Line)
      requires AddingNow(rings0, log0, us0, a, news, b, up) && n >= 0
      modifies this`lp, this`on
      ensures AddingNow(rings0, log0, us0, a, news, b, up)
      ensures r == ring[if n <= addr_last then n else addr_last]
    {
      r := GetAddressedLineNode(n);
    }

    lemma Size()
      requires Buffer()
      ensures |ring| == addr_last + 1 && Ring(ring) && ring[0] == head
    {
    }

    /** Lines are about to be added after the address given. */
    method BeginAdding(addr: int, ghost a: seq<Line>, ghost b: seq<Line>)
      requires Valid() && 0 <= addr <= addr_last && a == ring[..addr + 1] && b == ring[addr + 1..]
      modifies this`current_addr
      ensures AddingNow(rings, log, ustack, a, [], b, -1) && ring == a + b
    {
      current_addr := addr;
      StartAdding(a, b);
    }

    /** The buffer counts as modified while lines are being added. */
    method Touch(up: int, ghost rings0: seq<seq<Line>>, ghost log0: Log, ghost us0: seq<Undo>,
                 ghost a: seq<Line>, ghost news: seq<Line>, ghost b: seq<Line>)
      requires AddingNow(rings0, log0, us0, a, news, b, up)
      modifies this`modified
      ensures AddingNow(rings0, log0, us0, a, news, b, up) && modified
    {
      hide Active, Leads, Belongs, HeldAt;
      LinesExist(rings0, log0);
      modified := true;
    }

    /** The outer loop of copy_lines: one batch, or two when the lines to copy lie on both sides of
        the place that the copies go to. */
    method CopyBatches(first_addr: int, second_addr: int, ghost a: seq<Line>, ghost b: seq<Line>) returns (ghost news: seq<Line>, up: int)
      requires AddingNow(rings, log, ustack, a, [], b, -1)
      requires 1 <= first_addr <= second_addr < |a + b|
      modifies this`lp, this`on, this`addr_last, this`current_addr, this`ring, this`ustack, this`rings, this`log
      modifies ring`q_forw, ring`q_back
      ensures AddingNow(old(rings), old(log), old(ustack), a, news, b, up) && Copies(news, a + b, first_addr)
      ensures |news| == second_addr - first_addr + 1 && forall y :: y in news ==> fresh(y)
    {
      hide *;
      ghost var rings0, log0, us0 := rings, log, ustack;
      AddingSays(rings0, log0, us0, a, [], b, -1);
      up := -1;
      news := [];
      NoCopies(a + b, first_addr);
      var addr := current_addr;
      var np := NodeWhileAdding(first_addr, up, rings0, log0, us0, a, news, b);
      var n: int, m := second_addr - first_addr + 1, 0;
      if first_addr <= addr && addr < second_addr {
        n := addr - first_addr + 1;
        m := second_addr - addr;
      }
      while n > 0
        invariant 0 <= n && 0 <= m && |news| + n + m == second_addr - first_addr + 1 && (n == 0 ==> m == 0)
        invariant AddingNow(rings0, log0, us0, a, news, b, up) && Copies(news, a + b, first_addr)
        invariant n > 0 ==> np == (a + b)[first_addr + |news|]
        invariant first_addr + |news| >= |a| || first_addr + |news| + n <= |a|
        invariant m > 0 ==> first_addr + |news| + n == |a|
        invariant forall y :: y in news ==> fresh(y)
        decreases n + m
      {
        AddingSays(rings0, log0, us0, a, news, b, up);
        up, news := CopyRun(np, n, up, rings0, log0, us0, a, news, b, first_addr);
        n, m := m, 0;
        AddingSays(rings0, log0, us0, a, news, b, up);
        np := NodeWhileAdding(current_addr + 1, up, rings0, log0, us0, a, news, b);
        AddingSays(rings0, log0, us0, a, news, b, up);
        NextToCopies(a, news, b);
      }
    }

    /** copy_lines */
    method CopyLines(first_addr: int, second_addr: int, addr: int) returns (ghost news: seq<Line>)
      requires Valid() && 1 <= first_addr <= second_addr <= addr_last && 0 <= addr <= addr_last
      modifies this`lp, this`on, this`addr_last, this`current_addr, this`ring, this`ustack, this`rings, this`log, this`modified
      modifies ring`q_forw, ring`q_back
      ensures Valid() && modified
      ensures ring == old(ring[..addr + 1]) + news + old(ring[addr + 1..]) && forall y :: y in news ==> fresh(y)
      ensures current_addr == addr + |news| && |news| == second_addr - first_addr + 1
      ensures Copies(news, old(ring), first_addr)
      ensures rings == old(rings) + [ring] && log == old(log) + [Ins(old(ring[..addr + 1]), news, old(ring[addr + 1..]))]
    {
      Size();
      hide *;
      ghost var a, b := ring[..addr + 1], ring[addr + 1..];
      assert a + b == ring;
      BeginAdding(addr, a, b);
      var up;
      news, up := CopyBatches(first_addr, second_addr, a, b);
      Touch(up, old(rings), old(log), old(ustack), a, news, b);
      AddingSays(old(rings), old(log), old(ustack), a, news, b, up);
      StopAdding(old(rings), old(log), old(ustack), a, news, b, up);
    }

    /** The inner loop of unset_active_nodes. It starts at a rotating index, and looks at every
        slot once unless it finds x before that. */
    method UnsetOne(x: Line)
      requires Slots()
      modifies this`active_list, this`active_ndx
      ensures Slots() && |active_list| == old(|active_list|)
      ensures forall k :: 0 <= k < |active_list| ==> active_list[k] == if old(active_list[k]) == x then null else old(active_list[k])
    {
      var i, n := 0, |active_list|;
      ghost var start := active_ndx;
      while i < n
        invariant Slots() && active_list == old(active_list) && i <= n == |active_list|
        invariant n > 0 ==> active_ndx == if start + i < n then start + i else start + i - n
        invariant forall k :: 0 <= k < n && (start <= k < start + i || k < start + i - n) ==> active_list[k] != x
      {
        if active_list[active_ndx] == x {
          ghost var at := active_ndx;
          assert forall k :: 0 <= k < n && active_list[k] == x ==> matched[k] == matched[at];
          active_list := active_list[active_ndx := null];
          active_ndx := INC_MOD(active_ndx, n - 1);
          break;
        } else {
          active_ndx := INC_MOD(active_ndx, n - 1);
        }
        i := i + 1;
      }
    }

    /** unset_active_nodes: the lines from r[i] to r[j] leave the active list. */
    method UnsetActiveNodes(np: Line, mp: Line, ghost r: seq<Line>, ghost i: nat, ghost j: nat)
      requires Slots() && Ring(r) && 1 <= i <= j < |r| && np == r[i] && mp == r[INC_MOD(j, |r| - 1)]
      modifies this`active_list, this`active_ndx
      ensures Slots() && active_list == Left(true, old(active_list), r[i..j + 1])
    {
      var x := np;
      ghost var k := i;
      while x != mp
        invariant i <= k <= j + 1 && x == r[if k < |r| then k else 0] && Ring(r)
        invariant Slots() && |active_list| == old(|active_list|)
        invariant forall q :: 0 <= q < |active_list| ==>
          active_list[q] == if old(active_list[q]) in r[i..k] then null else old(active_list[q])
        decreases j + 1 - k
      {
        assert r[i..k + 1] == r[i..k] + [r[k]];
        RingStep(r, k);
        UnsetOne(x);
        x := x.q_forw;
        k := k + 1;
      }
    }

    /** Lines leave the active list before they leave the ring. */
    method Deactivate(np: Line, mp: Line, ghost i: nat, ghost j: nat)
      requires Active() && Ring(ring) && 1 <= i <= j < |ring| && np == ring[i] && mp == ring[INC_MOD(j, |ring| - 1)]
      modifies this`active_list, this`active_ndx
      ensures Active() && active_list == Left(isglobal, old(active_list), ring[i..j + 1])
    {
      if isglobal {
        UnsetActiveNodes(np, mp, ring, i, j);
      }
    }

    /** REQUE(p, n) of delete_lines, and the new end of the buffer. The cursor is in front of the
        lines that go, as get_addressed_line_node(from - 1) came last. */
    method Excise(p: Line, n: Line, from: int, to: int)
      requires Buffer() && 1 <= from <= to <= addr_last && on == from - 1
      requires p == ring[from - 1] && n == ring[INC_MOD(to, addr_last)]
      modifies this`addr_last, this`ring, ring`q_forw, ring`q_back
      ensures Buffer()
      ensures ring == old(ring[..from]) + old(ring[to + 1..])
      ensures Detached(old(ring[..from]), old(ring[from..to + 1]), old(ring[to + 1..]))
    {
      ghost var a, seg, b := ring[..from], ring[from..to + 1], ring[to + 1..];
      assert ring == a + seg + b;
      assert p == Last(a) && n == Next(a, b);
      Cut(p, n, a, seg, b);
      ring := a + b;
      addr_last := addr_last - (to - from + 1);
    }

    lemma StillActive(was: seq<Line>, from: nat, to: nat)
      requires Slots() && from <= to < |was| && ring == was[..from] + was[to + 1..]
      requires isglobal ==> forall k :: active_ptr <= k < |active_list| && active_list[k] != null ==>
        active_list[k] in was && active_list[k] !in was[from..to + 1]
      ensures Active()
    {
      assert was == was[..from] + was[from..to + 1] + was[to + 1..];
    }

    /** The ring operations of delete_lines. */
    method CutLines(from: int, to: int)
      requires Buffer() && Active() && 1 <= from <= to <= addr_last
      modifies this`lp, this`on, this`addr_last, this`ring, this`active_list, this`active_ndx
      modifies ring`q_forw, ring`q_back
      ensures Buffer() && Active()
      ensures ring == old(ring[..from]) + old(ring[to + 1..])
      ensures Detached(old(ring[..from]), old(ring[from..to + 1]), old(ring[to + 1..]))
      ensures active_list == Left(isglobal, old(active_list), old(ring[from..to + 1]))
    {
      var n := GetAddressedLineNode(INC_MOD(to, addr_last));
      var p := GetAddressedLineNode(from - 1);
      RingStep(ring, from - 1);
      Deactivate(p.q_forw, n, from, to);
      ghost var was := ring;
      hide Ring, Detached;
      Excise(p, n, from, to);
      StillActive(was, from, to);
    }

    /** Relinking lines of the ring leaves alone what the log says of other lines. */
    method CutLinesHeld(from: int, to: int)
      requires Buffer() && Active() && 1 <= from <= to <= addr_last
      requires Leads(rings, log) && rings[|log|] == ring && HeldAt(log, |log|)
      modifies this`lp, this`on, this`addr_last, this`ring, this`active_list, this`active_ndx
      modifies ring`q_forw, ring`q_back
      ensures Buffer() && Active() && HeldAt(log, |log|)
      ensures ring == old(ring[..from]) + old(ring[to + 1..])
      ensures Detached(old(ring[..from]), old(ring[from..to + 1]), old(ring[to + 1..]))
      ensures active_list == Left(isglobal, old(active_list), old(ring[from..to + 1]))
    {
      Size();
      forall j | 0 <= j < |log| && log[j].Del? ensures forall y :: y in log[j].seg ==> y !in ring {
        OutOfRing(rings, log, j);
      }
      hide Ring, Leads, Buffer, Active, Left, Before, After, Chain;
      CutLines(from, to);
      forall j | 0 <= j < |log| && log[j].Del? ensures Held(log[j]) {
        assert old(Held(log[j]));
        var s := log[j].seg;
        assert forall i :: 0 <= i < |s| ==> s[i] in s;
        assert forall i :: 0 <= i < |s| ==> s[i].q_forw == old(s[i].q_forw);
        assert forall i :: 0 <= i < |s| ==> s[i].q_back == old(s[i].q_back);
      }
    }

    lemma TrackedParts(rings0: seq<seq<Line>>, log0: Log, us0: seq<Undo>)
      ensures Recorded(rings0, log0, us0) ==> Leads(rings0, log0) && AllWellFormed(log0)
      ensures Tracked(rings0, log0, us0) <==> Recorded(rings0, log0, us0) && HeldAt(log0, |log0|)
    {
    }

    method CutLinesTracked(from: int, to: int, ghost us0: seq<Undo>)
      requires Buffer() && Active() && 1 <= from <= to <= addr_last
      requires |rings| == |log| + 1 && rings[|log|] == ring && Tracked(rings, log, us0)
      modifies this`lp, this`on, this`addr_last, this`ring, this`active_list, this`active_ndx
      modifies ring`q_forw, ring`q_back
      ensures Buffer() && Active() && Tracked(rings, log, us0)
      ensures ring == old(ring[..from]) + old(ring[to + 1..])
      ensures Detached(old(ring[..from]), old(ring[from..to + 1]), old(ring[to + 1..]))
      ensures active_list == Left(isglobal, old(active_list), old(ring[from..to + 1]))
    {
      Size();
      hide *;
      TrackedParts(rings, log, us0);
      CutLinesHeld(from, to);
      TrackedParts(rings, log, us0);
    }

    /** One more change on the log. */
    lemma Logged(rings0: seq<seq<Line>>, log0: Log, us0: seq<Undo>, c: Change, es: seq<Undo>)
      requires Tracked(rings0, log0, us0) && ring != [] && ring[0] == head
      requires WellFormed(c) && !c.Ins? && |rings0| == |log0| + 1 && Before(c) == rings0[|log0|] && After(c) == ring && Distinct(ring)
      requires c.Del? ==> Held(c)
      requires |es| == |Entries(c)| && forall i :: 0 <= i < |es| ==> Norm(es[i]) == Entries(c)[i]
      requires ustack == us0 + es && rings == rings0 + [ring] && log == log0 + [c]
      ensures Undoable()
    {
      if c.Del? {
        assert Distinct(rings0[|log0|]);
        DistinctThree(c.a, c.seg, c.b);
        ApartIn(c.seg, c.b);
        ApartIn(c.a, c.seg);
      }
      LeadsOn(rings0, log0, c);
      BelongsOn(us0, es, log0, c);
      HeldOn(log0, c);
      assert rings[0] == rings0[0];
      forall k | 0 <= k < |rings| ensures rings[k] != [] && rings[k][0] == head {
        assert k < |rings0| ==> rings[k] == rings0[k];
      }
    }

    lemma ValidParts()
      ensures Valid() <==> Buffer() && Active() && |rings| == |log| + 1 && rings[|log|] == ring && Tracked(rings, log, ustack)
    {
    }

    /** push_undo_stack says nothing about the past. */
    method PushTracked(kind: Kind, from: int, to: int, ghost us0: seq<Undo>)
      requires Buffer() && Active() && |rings| == |log| + 1 && Tracked(rings, log, us0)
      requires 0 <= from <= addr_last && 0 <= to <= addr_last
      modifies this`lp, this`on, this`ustack
      ensures Buffer() && Active() && Tracked(rings, log, us0)
      ensures ustack == old(ustack) + [Undo(kind, ring[from], ring[to])]
    {
      hide Leads, Belongs, HeldAt, Slots;
      LinesExist(rings, log);
      var up := PushUndoStack(kind, from, to);
    }

    /** The end of a change: where the editor stands, and the change on the log. */
    method Conclude(addr: int, ghost us0: seq<Undo>, ghost c: Change, ghost es: seq<Undo>)
      requires Buffer() && Active() && Tracked(rings, log, us0)
      requires WellFormed(c) && !c.Ins? && |rings| == |log| + 1 && Before(c) == rings[|log|] && After(c) == ring
      requires c.Del? ==> Held(c)
      requires |es| == |Entries(c)| && forall i :: 0 <= i < |es| ==> Norm(es[i]) == Entries(c)[i]
      requires ustack == us0 + es
      modifies this`current_addr, this`modified, this`rings, this`log
      ensures Valid() && modified && current_addr == addr
      ensures rings == old(rings) + [ring] && log == old(log) + [c]
    {
      hide Leads, Belongs, HeldAt, Before, After, Entries, Norm, Slots, Chain, Distinct;
      ghost var rings0, log0 := rings, log;
      LinesExist(rings, log);
      current_addr := addr;
      modified := true;
      rings, log := rings + [ring], log + [c];
      Logged(rings0, log0, us0, c, es);
    }

    /** delete_lines */
    method DeleteLines(from: int, to: int)
      requires Valid() && 1 <= from <= to <= addr_last
      modifies this`lp, this`on, this`addr_last, this`current_addr, this`modified, this`ring, this`active_list, this`active_ndx
      modifies this`ustack, this`rings, this`log, ring`q_forw, ring`q_back
      ensures Valid() && modified
      ensures ring == old(ring[..from]) + old(ring[to + 1..]) && current_addr == from - 1
      ensures rings == old(rings) + [ring]
      ensures log == old(log) + [Del(old(ring[..from]), old(ring[from..to + 1]), old(ring[to + 1..]))]
      ensures active_list == Left(isglobal, old(active_list), old(ring[from..to + 1]))
    {
      hide *;
      ValidParts();
      Size();
      ghost var c := Del(ring[..from], ring[from..to + 1], ring[to + 1..]);
      ghost var us0, es := ustack, [Undo(UDEL, ring[from], ring[to])];
      DelEntries(ring, from, to);
      PushTracked(UDEL, from, to, us0);
      CutLinesTracked(from, to, us0);
      DelHeld(c);
      Conclude(from - 1, us0, c, es);
    }

    /** The REQUEs of move_lines. */
    method RelinkMove(b2: Line, a2: Line, b1: Line, a1: Line, ghost c: Change)
      requires Buffer() && c.Mov? && WellFormed(c) && ring == c.a + c.x + c.y + c.b && on == |c.a| - 1
      requires c.up ==> b2 == Last(c.a) && a2 == c.x[0] && b1 == Last(c.x) && a1 == Next(c.a, c.b)
      requires !c.up ==> b2 == Last(c.y) && a2 == Next(c.a, c.b) && b1 == Last(c.a) && a1 == c.y[0]
      modifies this`ring, ring`q_forw, ring`q_back
      ensures Buffer() && ring == c.a + c.y + c.x + c.b
    {
      MovEndsIn(ring, c);
      hide Ring, Last, Next;
      MoveBack(b2, a2, b1, a1, c.a, c.y, c.x, c.b, !c.up);
      ring := c.a + c.y + c.x + c.b;
    }

    /** The relinking of move_lines, with the line addresses looked up in the order that leaves the
        cursor in front of everything that moves. */
    method RequeueLines(first_addr: int, second_addr: int, addr: int) returns (b2: Line, a2: Line)
      requires Buffer() && 1 <= first_addr <= second_addr <= addr_last && 0 <= addr <= addr_last
      requires addr < first_addr - 1 || addr > second_addr
      modifies this`lp, this`on, this`ring, ring`q_forw, ring`q_back
      ensures Buffer() && ring == After(MovOf(old(ring), first_addr, second_addr, addr))
      ensures b2 == old(ring[addr]) && a2 == old(ring[INC_MOD(addr, addr_last)])
    {
      hide After, Before, MovOf, Ring, Entries, WellFormed, Last, Next;
      Size();
      ghost var c := MovOf(ring, first_addr, second_addr, addr);
      MovSays(ring, first_addr, second_addr, addr);
      MovEnds(ring, first_addr, second_addr, addr);
      var b1;
      var a1 := GetAddressedLineNode(INC_MOD(second_addr, addr_last));
      if addr < first_addr {
        b1 := GetAddressedLineNode(first_addr - 1);
        b2 := GetAddressedLineNode(addr);
      } else {
        b2 := GetAddressedLineNode(addr);
        b1 := GetAddressedLineNode(first_addr - 1);
      }
      RingStep(ring, addr);
      a2 := b2.q_forw;
      RelinkMove(b2, a2, b1, a1, c);
    }

    /** The lines that were taken out before keep their place. */
    method RequeueHeld(first_addr: int, second_addr: int, addr: int) returns (b2: Line, a2: Line)
      requires Buffer() && 1 <= first_addr <= second_addr <= addr_last && 0 <= addr <= addr_last
      requires addr < first_addr - 1 || addr > second_addr
      requires Leads(rings, log) && rings[|log|] == ring && HeldAt(log, |log|)
      modifies this`lp, this`on, this`ring, ring`q_forw, ring`q_back
      ensures Buffer() && HeldAt(log, |log|)
      ensures ring == After(MovOf(old(ring), first_addr, second_addr, addr))
      ensures b2 == old(ring[addr]) && a2 == old(ring[INC_MOD(addr, addr_last)])
    {
      Size();
      forall j | 0 <= j < |log| && log[j].Del? ensures forall y :: y in log[j].seg ==> y !in ring {
        OutOfRing(rings, log, j);
      }
      hide Ring, Leads, Buffer, MovOf, After, Before, Detached;
      b2, a2 := RequeueLines(first_addr, second_addr, addr);
      forall j | 0 <= j < |log| && log[j].Del? ensures Held(log[j]) {
        assert old(Held(log[j]));
        var s := log[j].seg;
        assert forall i :: 0 <= i < |s| ==> s[i] in s;
        assert forall i :: 0 <= i < |s| ==> s[i].q_forw == old(s[i].q_forw);
        assert forall i :: 0 <= i < |s| ==> s[i].q_back == old(s[i].q_back);
      }
    }

    /** A ring with the same lines serves the active list as well. */
    lemma ActiveMoved(was: seq<Line>)
      requires ActiveIn(was) && forall y :: y in was ==> y in ring
      ensures Active()
    {
    }

    lemma ActiveSays()
      ensures Active() <==> ActiveIn(ring)
    {
    }

    /** Two pushes. */
    method PushTwo(kind: Kind, from: int, to: int, from': int, to': int)
      requires Buffer() && Active() && |rings| == |log| + 1 && Tracked(rings, log, ustack)
      requires 0 <= from <= addr_last && 0 <= to <= addr_last && 0 <= from' <= addr_last && 0 <= to' <= addr_last
      modifies this`lp, this`on, this`ustack
      ensures Buffer() && Active() && Tracked(rings, log, old(ustack))
      ensures ustack == old(ustack) + ([Undo(kind, ring[from], ring[to])] + [Undo(kind, ring[from'], ring[to'])])
    {
      Size();
      hide *;
      PushTracked(kind, from, to, old(ustack));
      PushTracked(kind, from', to', old(ustack));
    }

    /** Both pushes of move_lines. */
    method PushMove(first_addr: int, second_addr: int, addr: int)
      requires Buffer() && Active() && 1 <= first_addr <= second_addr <= addr_last && 0 <= addr <= addr_last
      requires addr < first_addr - 1 || addr > second_addr
      requires |rings| == |log| + 1 && Tracked(rings, log, ustack)
      modifies this`lp, this`on, this`ustack
      ensures Buffer() && Active() && Tracked(rings, log, old(ustack))
      ensures var c := MovOf(ring, first_addr, second_addr, addr); WellFormed(c) && ustack == old(ustack) + Entries(c)
    {
      Size();
      hide *;
      MovEntries(ring, first_addr, second_addr, addr);
      PushTwo(UMOV, first_addr - 1, INC_MOD(second_addr, addr_last), addr, INC_MOD(addr, addr_last));
    }

    /** The relinking, with what it leaves alone. */
    method RequeueTracked(first_addr: int, second_addr: int, addr: int, ghost us0: seq<Undo>) returns (b2: Line, a2: Line)
      requires Buffer() && Active() && 1 <= first_addr <= second_addr <= addr_last && 0 <= addr <= addr_last
      requires addr < first_addr - 1 || addr > second_addr
      requires |rings| == |log| + 1 && rings[|log|] == ring && Tracked(rings, log, us0)
      modifies this`lp, this`on, this`ring, ring`q_forw, ring`q_back
      ensures Buffer() && Active() && Tracked(rings, log, us0)
      ensures ring == After(MovOf(old(ring), first_addr, second_addr, addr))
      ensures b2 == old(ring[addr]) && a2 == old(ring[INC_MOD(addr, addr_last)])
    {
      Size();
      hide *;
      ghost var was := ring;
      MovKeeps(ring, first_addr, second_addr, addr);
      TrackedParts(rings, log, us0);
      ActiveSays();
      b2, a2 := RequeueHeld(first_addr, second_addr, addr);
      TrackedParts(rings, log, us0);
      ActiveMoved(was);
    }

    /** unset_active_nodes for the lines that have been moved. */
    method DeactivateMoved(b2: Line, a2: Line, ghost was: seq<Line>, ghost first: int, ghost second: int, ghost addr: int)
      requires Buffer() && Active() && 1 <= first <= second < |was| && 0 <= addr < |was| && (addr < first - 1 || addr > second)
      requires ring == After(MovOf(was, first, second, addr)) && b2 == was[addr] && a2 == was[INC_MOD(addr, |was| - 1)]
      modifies this`active_list, this`active_ndx
      ensures Active() && active_list == Left(isglobal, old(active_list), was[first..second + 1])
    {
      hide *;
      Size();
      MovedTo(was, first, second, addr);
      MovedLink(ring, was, first, second, addr);
      ghost var k := second - first + 1;
      ghost var i := if addr < first then addr + 1 else addr + 1 - k;
      Deactivate(b2.q_forw, a2, i, i + k - 1);
    }

    /** move_lines, without the case that has nothing to do. */
    method MoveLinesAway(first_addr: int, second_addr: int, addr: int)
      requires Valid() && 1 <= first_addr <= second_addr <= addr_last && 0 <= addr <= addr_last
      requires addr < first_addr - 1 || addr > second_addr
      modifies this`lp, this`on, this`current_addr, this`modified, this`ring, this`active_list, this`active_ndx
      modifies this`ustack, this`rings, this`log, ring`q_forw, ring`q_back
      ensures Valid() && modified && ring == After(MovOf(old(ring), first_addr, second_addr, addr))
      ensures current_addr == addr + (if addr < first_addr then second_addr - first_addr + 1 else 0)
      ensures rings == old(rings) + [ring] && log == old(log) + [MovOf(old(ring), first_addr, second_addr, addr)]
      ensures active_list == Left(isglobal, old(active_list), old(ring[first_addr..second_addr + 1]))
    {
      hide *;
      ValidParts();
      Size();
      ghost var was, us0 := ring, ustack;
      ghost var c := MovOf(ring, first_addr, second_addr, addr);
      MovSays(ring, first_addr, second_addr, addr);
      PushMove(first_addr, second_addr, addr);
      var b2, a2 := RequeueTracked(first_addr, second_addr, addr, us0);
      LinesExist(rings, log);
      DeactivateMoved(b2, a2, was, first_addr, second_addr, addr);
      EntriesNorm(c);
      Conclude(addr + (if addr < first_addr then second_addr - first_addr + 1 else 0), us0, c, Entries(c));
    }

    /** The lines before and after a range. */
    method NodesAround(first_addr: int, second_addr: int) returns (b2: Line, a2: Line)
      requires Valid() && 1 <= first_addr <= second_addr <= addr_last
      modifies this`lp, this`on
      ensures Valid() && a2 == ring[INC_MOD(second_addr, addr_last)] && b2.q_forw == ring[first_addr]
    {
      LinesExist(rings, log);
      hide Tracked, ActiveIn;
      a2 := GetAddressedLineNode(INC_MOD(second_addr, addr_last));
      b2 := GetAddressedLineNode(first_addr - 1);
      RingStep(ring, first_addr - 1);
    }

    method SetCurrent(addr: int)
      requires Valid()
      modifies this`current_addr, this`modified
      ensures Valid() && current_addr == addr && modified
    {
      LinesExist(rings, log);
      hide Leads, Belongs, HeldAt, ActiveIn;
      current_addr := addr;
      modified := true;
    }

    method DeactivateRange(np: Line, mp: Line, ghost i: int, ghost j: int)
      requires Valid() && 1 <= i <= j <= addr_last && np == ring[i] && mp == ring[INC_MOD(j, addr_last)]
      modifies this`active_list, this`active_ndx
      ensures Valid() && active_list == Left(isglobal, old(active_list), ring[i..j + 1])
    {
      hide *;
      ValidParts();
      Size();
      LinesExist(rings, log);
      Deactivate(np, mp, i, j);
      ValidParts();
    }

    /** move_lines for lines that are behind addr already. The ring and the undo stack stay as they
        are, but current_addr is set, and the active list loses the lines as if they had moved. */
    method MoveNowhere(first_addr: int, second_addr: int)
      requires Valid() && 1 <= first_addr <= second_addr <= addr_last
      modifies this`lp, this`on, this`current_addr, this`modified, this`active_list, this`active_ndx
      ensures Valid() && modified && current_addr == second_addr
      ensures active_list == Left(isglobal, old(active_list), old(ring[first_addr..second_addr + 1]))
    {
      Size();
      hide *;
      var b2, a2 := NodesAround(first_addr, second_addr);
      SetCurrent(second_addr);
      DeactivateRange(b2.q_forw, a2, first_addr, second_addr);
    }

    /** move_lines */
    method MoveLines(first_addr: int, second_addr: int, addr: int)
      requires Valid() && 1 <= first_addr <= second_addr <= addr_last && 0 <= addr <= addr_last
      requires addr < first_addr || addr >= second_addr
      modifies this`lp, this`on, this`current_addr, this`modified, this`ring, this`active_list, this`active_ndx
      modifies this`ustack, this`rings, this`log, ring`q_forw, ring`q_back
      ensures Valid() && modified && active_list == Left(isglobal, old(active_list), old(ring[first_addr..second_addr + 1]))
      ensures addr == first_addr - 1 || addr == second_addr ==>
        ring == old(ring) && current_addr == second_addr && rings == old(rings) && log == old(log) && ustack == old(ustack)
      ensures addr < first_addr - 1 || addr > second_addr ==>
        && ring == After(MovOf(old(ring), first_addr, second_addr, addr))
        && current_addr == addr + (if addr < first_addr then second_addr - first_addr + 1 else 0)
        && rings == old(rings) + [ring] && log == old(log) + [MovOf(old(ring), first_addr, second_addr, addr)]
    {
      Size();
      hide *;
      if addr == first_addr - 1 || addr == second_addr {
        MoveNowhere(first_addr, second_addr);
      } else {
        MoveLinesAway(first_addr, second_addr, addr);
      }
    }

    /** put_sbuf_line, and what append_lines and join_lines do with the undo stack after it. */
    method PutLine(text: string, up0: int, ghost rings0: seq<seq<Line>>, ghost log0: Log, ghost us0: seq<Undo>,
                   ghost a: seq<Line>, ghost news: seq<Line>, ghost b: seq<Line>) returns (x: Line, up: int)
      requires AddingNow(rings0, log0, us0, a, news, b, up0) && sf.Valid()
      modifies this`lp, this`on, this`addr_last, this`current_addr, this`ring, this`ustack, this`rings, this`log
      modifies sf, ring`q_forw, ring`q_back
      ensures fresh(x) && AddingNow(rings0, log0, us0, a, news + [x], b, up)
      ensures sf.Valid() && sf.file == old(sf.file) + text && Has(sf.file, x, text)
    {
      hide AddingNow;
      LinesExist(rings0, log0);
      AddingSays(rings0, log0, us0, a, news, b, up0);
      var seek := sf.Put(text);
      x := new Line(seek, |text|);
      up := AddLogged(x, true, up0, rings0, log0, us0, a, news, b);
    }

    /** The loop of append_lines, up to a line that is a single period. */
    method PutLines(lines: seq<string>, ghost a: seq<Line>, ghost b: seq<Line>) returns (ghost news: seq<Line>, up: int)
      requires AddingNow(rings, log, ustack, a, [], b, -1) && sf.Valid()
      modifies this`lp, this`on, this`addr_last, this`current_addr, this`ring, this`ustack, this`rings, this`log, this`modified
      modifies sf, ring`q_forw, ring`q_back
      ensures AddingNow(old(rings), old(log), old(ustack), a, news, b, up) && forall y :: y in news ==> fresh(y)
      ensures sf.Valid() && old(sf.file) <= sf.file && HaveAll(sf.file, news, Taken(lines))
      ensures modified == (old(modified) || news != [])
    {
      hide AddingNow, Has;
      ghost var rings0, log0, us0 := rings, log, ustack;
      AddingSays(rings0, log0, us0, a, [], b, -1);
      up, news := -1, [];
      var i := 0;
      while i < |lines| && lines[i] != "."
        invariant 0 <= i <= |lines| && Taken(lines) == lines[..i] + Taken(lines[i..])
        invariant AddingNow(rings0, log0, us0, a, news, b, up) && forall y :: y in news ==> fresh(y)
        invariant sf.Valid() && old(sf.file) <= sf.file && HaveAll(sf.file, news, lines[..i])
        invariant modified == (old(modified) || news != [])
      {
        AddingSays(rings0, log0, us0, a, news, b, up);
        ghost var file := sf.file;
        var x;
        x, up := PutLine(lines[i], up, rings0, log0, us0, a, news, b);
        HaveMore(file, lines[i], news, lines[..i], x);
        news := news + [x];
        Touch(up, rings0, log0, us0, a, news, b);
        TakenOn(lines, i);
        i := i + 1;
      }
    }

    lemma RingIsLast()
      requires Valid()
      ensures |rings| == |log| + 1 && rings[|log|] == ring
    {
    }

    /** append_lines */
    method AppendLines(n: int, lines: seq<string>) returns (ghost news: seq<Line>)
      requires Valid() && sf.Valid() && InFile(sf.file, rings) && 0 <= n <= addr_last
      modifies this`lp, this`on, this`addr_last, this`current_addr, this`ring, this`ustack, this`rings, this`log, this`modified
      modifies sf, ring`q_forw, ring`q_back
      ensures Valid() && sf.Valid() && InFile(sf.file, rings) && old(sf.file) <= sf.file
      ensures ring == old(ring[..n + 1]) + news + old(ring[n + 1..]) && (forall y :: y in news ==> fresh(y))
      ensures HaveAll(sf.file, news, Taken(lines)) && current_addr == n + |news|
      ensures if news == [] then rings == old(rings) && log == old(log)
              else rings == old(rings) + [ring] && log == old(log) + [Ins(old(ring[..n + 1]), news, old(ring[n + 1..]))]
    {
      Size();
      RingIsLast();
      hide *;
      ghost var a, b := ring[..n + 1], ring[n + 1..];
      assert a + b == ring;
      BeginAdding(n, a, b);
      var up;
      news, up := PutLines(lines, a, b);
      AddingSays(old(rings), old(log), old(ustack), a, news, b, up);
      StopAdding(old(rings), old(log), old(ustack), a, news, b, up);
      HaveInFile(sf.file, news, Taken(lines));
      AddedInFile(old(sf.file), sf.file, old(rings), |old(log)|, a, news, b);
    }

    /** Where the loops of join_lines and display_lines start and stop. */
    method RangeEnds(from: int, to: int) returns (bp: Line, ep: Line)
      requires Valid() && 1 <= from <= to <= addr_last
      modifies this`lp, this`on
      ensures Valid() && bp == ring[from] && ep == ring[INC_MOD(to, addr_last)]
    {
      LinesExist(rings, log);
      hide Tracked, ActiveIn;
      ep := GetAddressedLineNode(INC_MOD(to, addr_last));
      bp := GetAddressedLineNode(from);
    }

    /** The loop of join_lines. */
    method JoinedText(from: int, to: int) returns (buf: string)
      requires Valid() && sf.Valid() && InFile(sf.file, rings) && 1 <= from <= to <= addr_last
      modifies this`lp, this`on, sf
      ensures Valid() && sf.Valid() && sf.file == old(sf.file)
      ensures buf == Joined(sf.file, ring, from, to + 1)
    {
      Size();
      RingIsLast();
      hide *;
      CurrentInFile(rings, |log|, sf.file);
      var bp, ep := RangeEnds(from, to);
      Size();
      LinesExist(rings, log);
      buf := JoinFrom(sf, bp, ep, ring, from, to);
    }

    /** The change that join_lines makes after the lines have gone. */
    method PutJoined(n: int, text: string) returns (ghost x: Line)
      requires Valid() && sf.Valid() && InFile(sf.file, rings) && 0 <= n <= addr_last
      modifies this`lp, this`on, this`addr_last, this`current_addr, this`ring, this`ustack, this`rings, this`log, this`modified
      modifies sf, ring`q_forw, ring`q_back
      ensures Valid() && sf.Valid() && sf.file == old(sf.file) + text && InFile(sf.file, rings) && fresh(x) && Has(sf.file, x, text)
      ensures ring == old(ring[..n + 1]) + [x] + old(ring[n + 1..]) && current_addr == n + 1 && modified
      ensures rings == old(rings) + [ring] && log == old(log) + [Ins(old(ring[..n + 1]), [x], old(ring[n + 1..]))]
    {
      Size();
      RingIsLast();
      hide *;
      ghost var a, b := ring[..n + 1], ring[n + 1..];
      assert a + b == ring;
      BeginAdding(n, a, b);
      var up;
      x, up := PutLine(text, -1, rings, log, ustack, a, [], b);
      assert [] + [x] == [x];
      Touch(up, old(rings), old(log), old(ustack), a, [x], b);
      AddingSays(old(rings), old(log), old(ustack), a, [x], b, up);
      StopAdding(old(rings), old(log), old(ustack), a, [x], b, up);
      AddedInFile(old(sf.file), sf.file, old(rings), |old(log)|, a, [x], b);
    }

    /** join_lines, up to the point where the lines have gone. */
    method TakeOut(from: int, to: int) returns (buf: string)
      requires Valid() && sf.Valid() && InFile(sf.file, rings) && 1 <= from <= to <= addr_last
      modifies this`lp, this`on, this`addr_last, this`current_addr, this`ring, this`active_list, this`active_ndx
      modifies this`ustack, this`rings, this`log, this`modified
      modifies sf, ring`q_forw, ring`q_back
      ensures Valid() && sf.Valid() && InFile(sf.file, rings) && old(sf.file) == sf.file
      ensures ring == old(ring[..from]) + old(ring[to + 1..]) && addr_last >= from - 1
      ensures buf == Joined(old(sf.file), old(ring), from, to + 1)
      ensures rings == old(rings) + [ring]
      ensures log == old(log) + [Del(old(ring[..from]), old(ring[from..to + 1]), old(ring[to + 1..]))]
      ensures active_list == Left(isglobal, old(active_list), old(ring[from..to + 1]))
    {
      Size();
      RingIsLast();
      hide *;
      buf := JoinedText(from, to);
      ghost var was := ring;
      DeleteLines(from, to);
      Size();
      PartOf(was, from, to);
      CutInFile(sf.file, old(rings), |old(log)|, ring);
    }

    /** join_lines: the lines go, and then x, their joined text, comes. */
    method JoinLines(from: int, to: int) returns (ghost x: Line)
      requires Valid() && sf.Valid() && InFile(sf.file, rings) && 1 <= from <= to <= addr_last
      modifies this`lp, this`on, this`addr_last, this`current_addr, this`ring, this`active_list, this`active_ndx
      modifies this`ustack, this`rings, this`log, this`modified
      modifies sf, ring`q_forw, ring`q_back
      ensures Valid() && sf.Valid() && InFile(sf.file, rings) && old(sf.file) <= sf.file && modified && fresh(x)
      ensures Has(sf.file, x, Joined(old(sf.file), old(ring), from, to + 1))
      ensures rings == old(rings) + JoinRings(old(ring), from, to, x) && log == old(log) + JoinLog(old(ring), from, to, x)
      ensures current_addr == from
      ensures active_list == Left(isglobal, old(active_list), old(ring[from..to + 1]))
    {
      Size();
      hide *;
      ghost var was := ring;
      var buf := TakeOut(from, to);
      ghost var r1, rings1, log1 := ring, rings, log;
      x := PutJoined(from - 1, buf);
      JoinedBy(was, old(rings), old(log), from, to, x, r1, ring);
    }

    /** The loops of pop_undo_stack. */
    method UnwindAll()
      requires |rings| == |log| + 1 && Ring(rings[|log|]) && Tracked(rings, log, ustack)
      modifies this`ustack, Lines(rings)`q_forw, Lines(rings)`q_back
      ensures Ring(rings[0]) && HeldAt(log, 0)
      ensures Belongs(ustack, |ustack|, Undone(log), |log|)
    {
      hide Ring, Leads, HeldAt, Belongs;
      ghost var was := ustack;
      var us := Unwind(ustack, rings, log);
      var vs := Reversed(us);
      StackOfUndone(was, us, vs, log);
      LinesExist(rings, log);
      ustack := vs;
    }

    /** clear_active_list */
    method ClearActiveList()
      requires Slots()
      modifies this`active_list, this`active_ptr, this`active_ndx, this`matched
      ensures Slots() && active_list == matched == [] && active_ptr == active_ndx == 0
      ensures forall r :: ActiveIn(r)
    {
      active_list, active_ptr, active_ndx, matched := [], 0, 0, [];
    }

    /** The undone log tells how the first ring comes about from the last. */
    lemma TrackedBack(rings0: seq<seq<Line>>, log0: Log, us: seq<Undo>)
      requires Leads(rings0, log0) && HeldAt(log0, 0) && Belongs(us, |us|, Undone(log0), |log0|)
      requires forall k {:trigger rings0[k]} :: 0 <= k < |rings0| ==> rings0[k] != [] && rings0[k][0] == head
      requires u_addr_last == |rings0[|log0|]| - 1
      ensures Tracked(Reverse(rings0), Undone(log0), us)
      ensures |Reverse(rings0)| == |Undone(log0)| + 1 && |Undone(log0)| == |log0| && Reverse(rings0)[|log0|] == rings0[0]
    {
      LeadsBack(rings0, log0);
      HeldOfUndone(log0);
      ReverseAt(rings0, 0);
      ReverseAt(rings0, |log0|);
      hide Leads, HeldAt, Belongs;
      forall k | 0 <= k < |rings0| ensures Reverse(rings0)[k] != [] && Reverse(rings0)[k][0] == head {
        ReverseAt(rings0, k);
        assert rings0[|rings0| - 1 - k] != [];
      }
    }

    /** The swaps at the end of pop_undo_stack. */
    method Exchange(ghost r: seq<Line>, ghost rings1: seq<seq<Line>>, ghost log1: Log)
      requires Ring(r) && r[0] == head && lp == head && on == 0
      modifies this`current_addr, this`u_current_addr, this`addr_last, this`u_addr_last, this`ring, this`rings, this`log
      requires u_addr_last == |r| - 1
      ensures Buffer() && ring == r && rings == rings1 && log == log1
      ensures current_addr == old(u_current_addr) && u_current_addr == old(current_addr)
      ensures addr_last == old(u_addr_last) && u_addr_last == old(addr_last)
    {
      current_addr, u_current_addr := u_current_addr, current_addr;
      addr_last, u_addr_last := u_addr_last, addr_last;
      ring, rings, log := r, rings1, log1;
    }

    /** What the undo stack of a valid editor rests on. */
    lemma RingsSay()
      requires Valid()
      ensures |rings| == |log| + 1 && rings[|log|] == ring && Ring(ring) && ring[0] == head && addr_last == |ring| - 1
      ensures Leads(rings, log) && Slots() && HeldAt(log, |log|) && Tracked(rings, log, ustack)
      ensures forall k {:trigger rings[k]} :: 0 <= k < |rings| ==> rings[k] != [] && rings[k][0] == head
      ensures u_addr_last != -1 ==> u_addr_last == |rings[0]| - 1
    {
    }

    /** The cursor goes to the head, which is in all rings. */
    method BeginPop()
      requires Valid()
      modifies this`modified, this`lp, this`on
      ensures Valid() && lp == head && on == 0
      ensures modified == (old(modified) || ustack != [])
    {
      LinesExist(rings, log);
      hide Tracked, ActiveIn;
      if |ustack| > 0 {
        modified := true;
      }
      var cp := GetAddressedLineNode(0);
    }

    lemma NotGlobal()
      requires Slots() && !isglobal
      ensures forall r :: ActiveIn(r)
    {
    }

    /** The part of pop_undo_stack that looks at the entries and at the active list. */
    method Unwound()
      requires Valid()
      modifies this`lp, this`on, this`modified, this`active_list, this`active_ptr, this`active_ndx, this`matched
      modifies this`ustack, Lines(rings)`q_forw, Lines(rings)`q_back
      ensures Leads(rings, log) && Ring(rings[0]) && HeldAt(log, 0) && Belongs(ustack, |ustack|, Undone(log), |log|)
      ensures lp == head && on == 0 && modified == (old(modified) || old(ustack) != [])
      ensures (forall r :: ActiveIn(r)) && (isglobal ==> active_list == [])
    {
      hide *;
      BeginPop();
      RingsSay();
      LinesExist(rings, log);
      UnwindAll();
      LinesExist(rings, log);
      if isglobal {
        ClearActiveList();
      } else {
        NotGlobal();
      }
    }

    /** The rest of pop_undo_stack. */
    method Settle(ghost rings0: seq<seq<Line>>, ghost log0: Log)
      requires Leads(rings0, log0) && Ring(rings0[0]) && HeldAt(log0, 0) && Belongs(ustack, |ustack|, Undone(log0), |log0|)
      requires forall k {:trigger rings0[k]} :: 0 <= k < |rings0| ==> rings0[k] != [] && rings0[k][0] == head
      requires u_addr_last == |rings0[0]| - 1 && addr_last == |rings0[|log0|]| - 1 && lp == head && on == 0 && forall r :: ActiveIn(r)
      modifies this`current_addr, this`u_current_addr, this`addr_last, this`u_addr_last, this`ring, this`rings, this`log
      ensures Valid() && ring == rings0[0] && rings == Reverse(rings0) && log == Undone(log0)
      ensures current_addr == old(u_current_addr) && u_current_addr == old(current_addr)
      ensures addr_last == old(u_addr_last) && u_addr_last == old(addr_last)
    {
      LeadsSize(rings0, log0);
      hide *;
      LinesExist(rings0, log0);
      Exchange(rings0[0], Reverse(rings0), Undone(log0));
      TrackedBack(rings0, log0, ustack);
      ActiveSays();
      ValidParts();
    }

    /** pop_undo_stack, when there is something to undo. */
    method Pop()
      requires Valid() && u_current_addr != -1 && u_addr_last != -1
      modifies this`lp, this`on, this`current_addr, this`u_current_addr, this`addr_last, this`u_addr_last, this`modified
      modifies this`active_list, this`active_ptr, this`active_ndx, this`matched
      modifies this`ring, this`rings, this`log, this`ustack, Lines(rings)`q_forw, Lines(rings)`q_back
      ensures Valid()
      ensures |old(rings)| > 0 && rings == Reverse(old(rings)) && log == Undone(old(log)) && ring == old(rings)[0]
      ensures current_addr == old(u_current_addr) && u_current_addr == old(current_addr)
      ensures addr_last == old(u_addr_last) && u_addr_last == old(addr_last)
      ensures modified == (old(modified) || old(ustack) != []) && (isglobal ==> active_list == [])
    {
      RingsSay();
      hide *;
      ghost var rings0, log0 := rings, log;
      Unwound();
      Settle(rings0, log0);
    }

    /** pop_undo_stack */
    method PopUndoStack() returns (ok: bool)
      requires Valid()
      modifies this`lp, this`on, this`current_addr, this`u_current_addr, this`addr_last, this`u_addr_last, this`modified
      modifies this`active_list, this`active_ptr, this`active_ndx, this`matched
      modifies this`ring, this`rings, this`log, this`ustack, Lines(rings)`q_forw, Lines(rings)`q_back
      ensures Valid() && ok == (old(u_current_addr) != -1 && old(u_addr_last) != -1)
      ensures ok ==>
        && |old(rings)| > 0 && rings == Reverse(old(rings)) && log == Undone(old(log)) && ring == old(rings)[0]
        && current_addr == old(u_current_addr) && u_current_addr == old(current_addr)
        && addr_last == old(u_addr_last) && u_addr_last == old(addr_last)
        && modified == (old(modified) || old(ustack) != [])
        && (isglobal ==> active_list == [])
      ensures !ok ==>
        && rings == old(rings) && log == old(log) && ring == old(ring) && ustack == old(ustack)
        && current_addr == old(current_addr) && u_current_addr == old(u_current_addr)
        && addr_last == old(addr_last) && u_addr_last == old(u_addr_last)
    {
      hide *;
      if u_current_addr == -1 || u_addr_last == -1 {
        return false;
      }
      Pop();
      ok := true;
    }

    /** The inner loop of clear_undo_stack: free the lines of one deleted segment. The link to the
        next line is read before the line goes. */
    method FreeSegment(h: Line, t: Line, freed0: seq<Line>, ghost c: Change) returns (freed: seq<Line>)
      requires c.Del? && WellFormed(c) && Held(c) && Distinct(Before(c)) && h == c.seg[0] && t == Last(c.seg)
      ensures freed == freed0 + c.seg
    {
      ghost var seg := c.seg;
      DistinctThree(c.a, seg, c.b);
      freed := freed0;
      var ep := t.q_forw;
      var x := h;
      ghost var k := 0;
      assert forall i :: 0 <= i < |seg| ==> seg[i] != Next(c.a, c.b);
      while x != ep
        invariant 0 <= k <= |seg| && x == (if k < |seg| then seg[k] else Next(c.a, c.b))
        invariant freed == freed0 + seg[..k]
        decreases |seg| - k
      {
        var tl := x.q_forw;
        freed := freed + [x];
        assert k < |seg| - 1 ==> Link(seg[k], seg[k + 1]);
        assert seg[..k + 1] == seg[..k] + [seg[k]];
        x := tl;
        k := k + 1;
      }
      assert seg[..|seg|] == seg;
    }

    /** clear_undo_stack, with the lines that it frees: those of the deleted segments that have not
        been put back, each once and none of them in the ring. */
    method ClearUndoStack() returns (freed: seq<Line>)
      requires Valid()
      modifies this`ustack, this`u_current_addr, this`u_addr_last, this`rings, this`log
      ensures Valid() && ustack == [] && rings == [ring] && log == []
      ensures u_current_addr == current_addr && u_addr_last == addr_last
      ensures Distinct(freed) && (forall x :: x in freed ==> x !in ring)
      ensures forall x :: x in freed <==> x in DelLines(old(log), 0)
    {
      RingsSay();
      freed := FreeAll();
      Forget();
    }

    lemma NothingTracked()
      requires Ring(ring) && ring[0] == head && u_addr_last == |ring| - 1
      ensures Tracked([ring], [], [])
    {
    }

    method Forget()
      requires Valid()
      modifies this`ustack, this`u_current_addr, this`u_addr_last, this`rings, this`log
      ensures Valid() && ustack == [] && rings == [ring] && log == []
      ensures u_current_addr == current_addr && u_addr_last == addr_last
    {
      hide *;
      ValidParts();
      Size();
      LinesExist(rings, log);
      ustack := [];
      rings, log := [ring], [];
      u_current_addr := current_addr;
      u_addr_last := addr_last;
      NothingTracked();
      ValidParts();
    }

    /** The outer loop of clear_undo_stack. */
    method FreeAll() returns (freed: seq<Line>)
      requires |rings| == |log| + 1 && Tracked(rings, log, ustack)
      ensures Distinct(freed) && (forall x :: x in freed ==> x !in rings[|log|])
      ensures forall x :: x in freed <==> x in DelLines(log, 0)
    {
      LinesExist(rings, log);
      freed := [];
      var n := |ustack|;
      ghost var k, half := |log|, false;
      hide Norm, Apart, Before, After, Entries, Held, HeldAt, Leads;
      while n > 0
        invariant 0 <= n <= |ustack| && 0 <= k <= |log|
        invariant if half then n >= 1 && Belongs(ustack, n - 1, log, k) && ustack[n - 1].kind in {UMOV, VMOV} else Belongs(ustack, n, log, k)
        invariant Distinct(freed) && forall x :: x in freed <==> x in DelLines(log, k)
      {
        n := n - 1;
        if half {
          half := false;
        } else {
          TopBelongs(ustack, n + 1, log, k);
          k := k - 1;
          half := log[k].Mov?;
          DelLinesApart(rings, log, k);
          TopKind(ustack[n], log[k]);
          if half {
            MovKind(ustack[n - 1], log[k]);
          }
        }
        if ustack[n].kind == UDEL {
          DelHeldAt(k);
          ghost var freed0 := freed;
          freed := FreeSegment(ustack[n].h, ustack[n].t, freed, log[k]);
          DistinctParts(freed0, log[k].seg);
          ApartIn(freed0, log[k].seg);
        }
      }
      TopBelongs(ustack, n, log, k);
      DelLinesOut(rings, log);
    }

    lemma DelHeldAt(k: nat)
      requires |rings| == |log| + 1 && Tracked(rings, log, ustack) && k < |log| && log[k].Del?
      ensures WellFormed(log[k]) && Held(log[k]) && Distinct(Before(log[k]))
    {
      assert Before(log[k]) == rings[k];
    }
  }
}
