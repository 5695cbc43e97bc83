/** src/bin/ed: what the commands do, told by the lines before, in and after their range. */
module EdLaws {
  import opened EdBuffer
  import opened EdText

  /** The current address after a command. */
  function Where(c: Command, addr_last: int, current_addr: int): int {
    if !InRange(c, addr_last) then current_addr
    else match c
      case Append(n, lines) => n + |Taken(lines)|
      case Change(from, to, lines) => from - 1 + |Taken(lines)|
      case Delete(from, to) => if to < addr_last then from else from - 1
      case Move(from, to, addr) => if addr == from - 1 || addr == to then to else addr + (if addr < from then to - from + 1 else 0)
      case Copy(from, to, addr) => addr + (to - from + 1)
      case Join(from, to) => if from == to then current_addr else from
  }

  /** mid is the range of lines from one address to another; the head is in front of it. */
  ghost predicate Parts(ts: seq<string>, from: int, to: int, pre: seq<string>, mid: seq<string>, post: seq<string>) {
    ts == pre + mid + post && pre != [] && mid != [] && |pre| == from && |pre| + |mid| - 1 == to
  }

  /** There is such a range. */
  ghost predicate IsRange(ts: seq<string>, from: int, to: int) {
    exists pre, mid, post :: Parts(ts, from, to, pre, mid, post)
  }

  /** What is typed in: news, up to a line that is a single period, or up to the end. */
  ghost predicate Typed(lines: seq<string>, news: seq<string>, rest: seq<string>) {
    lines == news + rest && "." !in news && (rest == [] || rest[0] == ".")
  }

  function Glued(ts: seq<string>): string {
    if ts == [] then "" else ts[0] + Glued(ts[1..])
  }

  /** A command turns ts, with the current address cur, into ts', with cur'; or else it fails, and
      changes nothing. */
  ghost predicate Obeys(c: Command, ts: seq<string>, cur: int, ts': seq<string>, cur': int, ok: bool) {
    && (!ok ==> ts' == ts && cur' == cur)
    && match c
       case Append(n, lines) =>
         && (ok <==> 0 <= n < |ts|)
         && (ok ==> forall news, rest :: Typed(lines, news, rest) ==> ts' == ts[..n + 1] + news + ts[n + 1..] && cur' == n + |news|)
       case Change(from, to, lines) =>
         && (ok <==> IsRange(ts, from, to))
         && (forall pre, mid, post, news, rest :: Parts(ts, from, to, pre, mid, post) && Typed(lines, news, rest) ==>
              ts' == pre + news + post && cur' == |pre| - 1 + |news|)
       case Delete(from, to) =>
         && (ok <==> IsRange(ts, from, to))
         && (forall pre, mid, post :: Parts(ts, from, to, pre, mid, post) ==>
              ts' == pre + post && cur' == if post != [] then |pre| else |pre| - 1)
       case Move(from, to, addr) =>
         && (ok <==> IsRange(ts, from, to) && (0 <= addr < from || to <= addr < |ts|))
         && (forall pre, mid, post :: Parts(ts, from, to, pre, mid, post) && 0 <= addr < |pre| ==>
              ts' == pre[..addr + 1] + mid + pre[addr + 1..] + post && cur' == addr + |mid|)
         && (forall pre, mid, post :: Parts(ts, from, to, pre, mid, post) && to <= addr < |ts| ==>
              ts' == pre + post[..addr - to] + mid + post[addr - to..] && cur' == addr)
       case Copy(from, to, addr) =>
         && (ok <==> IsRange(ts, from, to) && 0 <= addr < |ts|)
         && (forall pre, mid, post :: Parts(ts, from, to, pre, mid, post) && 0 <= addr < |ts| ==>
              ts' == ts[..addr + 1] + mid + ts[addr + 1..] && cur' == addr + |mid|)
       case Join(from, to) =>
         && (ok <==> IsRange(ts, from, to))
         && (forall pre, mid, post :: Parts(ts, from, to, pre, mid, post) && |mid| > 1 ==> ts' == pre + [Glued(mid)] + post && cur' == |pre|)
         && (forall pre, mid, post :: Parts(ts, from, to, pre, mid, post) && |mid| == 1 ==> ts' == ts && cur' == cur)
  }

  lemma PartsAre(ts: seq<string>, from: int, to: int, pre: seq<string>, mid: seq<string>, post: seq<string>)
    requires Parts(ts, from, to, pre, mid, post)
    ensures 1 <= from <= to < |ts| && pre == ts[..from] && mid == ts[from..to + 1] && post == ts[to + 1..]
  {
  }

  lemma RangeIs(ts: seq<string>, from: int, to: int)
    ensures IsRange(ts, from, to) <==> 1 <= from <= to <= |ts| - 1
  {
    if 1 <= from <= to < |ts| {
      assert Parts(ts, from, to, ts[..from], ts[from..to + 1], ts[to + 1..]);
    }
    if IsRange(ts, from, to) {
      var pre, mid, post :| Parts(ts, from, to, pre, mid, post);
      PartsAre(ts, from, to, pre, mid, post);
    }
  }

  lemma {:induction false} TakenIs(lines: seq<string>, news: seq<string>, rest: seq<string>)
    requires Typed(lines, news, rest)
    ensures Taken(lines) == news
  {
    if news != [] {
      assert lines[0] == news[0] && news[0] in news;
      assert lines[1..] == news[1..] + rest;
      TakenIs(lines[1..], news[1..], rest);
    }
  }

  lemma {:induction false} GluedMore(ts: seq<string>, t: string)
    ensures Glued(ts + [t]) == Glued(ts) + t
  {
    if ts == [] {
      assert [t][1..] == [] && Glued([t][1..]) == "";
      assert [] + [t] == [t] && t + "" == t && "" + t == t;
    } else {
      assert (ts + [t])[1..] == ts[1..] + [t];
      GluedMore(ts[1..], t);
      assert ts[0] + (Glued(ts[1..]) + t) == (ts[0] + Glued(ts[1..])) + t;
    }
  }

  lemma {:induction false} ConcatIsGlued(ts: seq<string>)
    ensures Concat(ts) == Glued(ts)
  {
    if ts != [] {
      ConcatIsGlued(ts[..|ts| - 1]);
      GluedMore(ts[..|ts| - 1], ts[|ts| - 1]);
      assert ts == ts[..|ts| - 1] + [ts[|ts| - 1]];
    }
  }

  // The functions that the proofs work with obey this.

  lemma AppendObeys(n: int, lines: seq<string>, ts: seq<string>, cur: int)
    requires ts != []
    ensures var c := Append(n, lines); Obeys(c, ts, cur, Edited(c, ts), Where(c, |ts| - 1, cur), InRange(c, |ts| - 1))
  {
    forall news, rest | Typed(lines, news, rest) ensures Taken(lines) == news {
      TakenIs(lines, news, rest);
    }
  }

  lemma ChangeObeys(from: int, to: int, lines: seq<string>, ts: seq<string>, cur: int)
    requires ts != []
    ensures var c := Change(from, to, lines); Obeys(c, ts, cur, Edited(c, ts), Where(c, |ts| - 1, cur), InRange(c, |ts| - 1))
  {
    var c := Change(from, to, lines);
    RangeIs(ts, from, to);
    forall pre, mid, post, news, rest | Parts(ts, from, to, pre, mid, post) && Typed(lines, news, rest)
      ensures Edited(c, ts) == pre + news + post && Where(c, |ts| - 1, cur) == |pre| - 1 + |news|
    {
      PartsAre(ts, from, to, pre, mid, post);
      TakenIs(lines, news, rest);
    }
    hide Edited, Where, IsRange, Parts, Typed;
  }

  lemma DeleteObeys(from: int, to: int, ts: seq<string>, cur: int)
    requires ts != []
    ensures var c := Delete(from, to); Obeys(c, ts, cur, Edited(c, ts), Where(c, |ts| - 1, cur), InRange(c, |ts| - 1))
  {
    var c := Delete(from, to);
    RangeIs(ts, from, to);
    forall pre, mid, post | Parts(ts, from, to, pre, mid, post)
      ensures Edited(c, ts) == pre + post && Where(c, |ts| - 1, cur) == if post != [] then |pre| else |pre| - 1
    {
      PartsAre(ts, from, to, pre, mid, post);
    }
    hide Edited, Where, IsRange, Parts;
  }

  lemma MoveUpIs(from: int, to: int, addr: int, ts: seq<string>, cur: int, pre: seq<string>, mid: seq<string>, post: seq<string>)
    requires Parts(ts, from, to, pre, mid, post) && 0 <= addr < |pre|
    ensures var c := Move(from, to, addr);
      && InRange(c, |ts| - 1) && Edited(c, ts) == pre[..addr + 1] + mid + pre[addr + 1..] + post && Where(c, |ts| - 1, cur) == addr + |mid|
  {
    PartsAre(ts, from, to, pre, mid, post);
    assert pre[..addr + 1] == ts[..addr + 1] && pre[addr + 1..] == ts[addr + 1..from];
    hide Parts;
    if addr == from - 1 {
      assert ts == pre + mid + [] + post;
    }
  }

  lemma MoveDownIs(from: int, to: int, addr: int, ts: seq<string>, cur: int, pre: seq<string>, mid: seq<string>, post: seq<string>)
    requires Parts(ts, from, to, pre, mid, post) && to <= addr < |ts|
    ensures var c := Move(from, to, addr);
      && InRange(c, |ts| - 1) && Edited(c, ts) == pre + post[..addr - to] + mid + post[addr - to..] && Where(c, |ts| - 1, cur) == addr
  {
    PartsAre(ts, from, to, pre, mid, post);
    assert post[..addr - to] == ts[to + 1..addr + 1] && post[addr - to..] == ts[addr + 1..];
    if addr == to {
      assert ts == pre + [] + mid + post;
    }
    hide Parts;
  }

  lemma MoveObeys(from: int, to: int, addr: int, ts: seq<string>, cur: int)
    requires ts != []
    ensures var c := Move(from, to, addr); Obeys(c, ts, cur, Edited(c, ts), Where(c, |ts| - 1, cur), InRange(c, |ts| - 1))
  {
    var c := Move(from, to, addr);
    RangeIs(ts, from, to);
    assert InRange(c, |ts| - 1) <==> 1 <= from <= to < |ts| && (0 <= addr < from || to <= addr < |ts|);
    assert !InRange(c, |ts| - 1) ==> Edited(c, ts) == ts && Where(c, |ts| - 1, cur) == cur;
    hide Edited, Where, IsRange, Parts, InRange;
    forall pre, mid, post | Parts(ts, from, to, pre, mid, post) && 0 <= addr < |pre|
      ensures Edited(c, ts) == pre[..addr + 1] + mid + pre[addr + 1..] + post && Where(c, |ts| - 1, cur) == addr + |mid|
    {
      MoveUpIs(from, to, addr, ts, cur, pre, mid, post);
    }
    forall pre, mid, post | Parts(ts, from, to, pre, mid, post) && to <= addr < |ts|
      ensures Edited(c, ts) == pre + post[..addr - to] + mid + post[addr - to..] && Where(c, |ts| - 1, cur) == addr
    {
      MoveDownIs(from, to, addr, ts, cur, pre, mid, post);
    }
  }

  lemma CopyObeys(from: int, to: int, addr: int, ts: seq<string>, cur: int)
    requires ts != []
    ensures var c := Copy(from, to, addr); Obeys(c, ts, cur, Edited(c, ts), Where(c, |ts| - 1, cur), InRange(c, |ts| - 1))
  {
    var c := Copy(from, to, addr);
    RangeIs(ts, from, to);
    forall pre, mid, post | Parts(ts, from, to, pre, mid, post) && 0 <= addr < |ts|
      ensures Edited(c, ts) == ts[..addr + 1] + mid + ts[addr + 1..] && Where(c, |ts| - 1, cur) == addr + |mid|
    {
      PartsAre(ts, from, to, pre, mid, post);
    }
    hide Edited, Where, IsRange, Parts;
  }

  lemma JoinObeys(from: int, to: int, ts: seq<string>, cur: int)
    requires ts != []
    ensures var c := Join(from, to); Obeys(c, ts, cur, Edited(c, ts), Where(c, |ts| - 1, cur), InRange(c, |ts| - 1))
  {
    var c := Join(from, to);
    RangeIs(ts, from, to);
    forall pre, mid, post | Parts(ts, from, to, pre, mid, post) ensures
      && (|mid| > 1 ==> Edited(c, ts) == pre + [Glued(mid)] + post && Where(c, |ts| - 1, cur) == |pre|)
      && (|mid| == 1 ==> Edited(c, ts) == ts && Where(c, |ts| - 1, cur) == cur)
    {
      PartsAre(ts, from, to, pre, mid, post);
      ConcatIsGlued(mid);
    }
    hide Edited, Where, IsRange, Parts;
  }

  lemma EditedObeys(c: Command, ts: seq<string>, cur: int)
    requires ts != []
    ensures Obeys(c, ts, cur, Edited(c, ts), Where(c, |ts| - 1, cur), InRange(c, |ts| - 1))
  {
    hide *;
    match c
    case Append(n, lines) => AppendObeys(n, lines, ts, cur);
    case Change(from, to, lines) => ChangeObeys(from, to, lines, ts, cur);
    case Delete(from, to) => DeleteObeys(from, to, ts, cur);
    case Move(from, to, addr) => MoveObeys(from, to, addr, ts, cur);
    case Copy(from, to, addr) => CopyObeys(from, to, addr, ts, cur);
    case Join(from, to) => JoinObeys(from, to, ts, cur);
  }

  lemma {:induction false} TypedIs(lines: seq<string>) returns (rest: seq<string>)
    ensures Typed(lines, Taken(lines), rest)
  {
    if lines == [] || lines[0] == "." {
      rest := lines;
      assert lines == [] + lines;
    } else {
      rest := TypedIs(lines[1..]);
      assert lines == [lines[0]] + lines[1..];
    }
  }

  /** A command can do one thing only. */
  lemma ObeysOnce(c: Command, ts: seq<string>, cur: int, a: seq<string>, cur1: int, ok1: bool, b: seq<string>, cur2: int, ok2: bool)
    requires Obeys(c, ts, cur, a, cur1, ok1) && Obeys(c, ts, cur, b, cur2, ok2)
    ensures ok1 == ok2 && a == b && cur1 == cur2
  {
    if ok1 {
      if c.Append? {
        var rest := TypedIs(c.lines);
        hide Typed;
      } else {
        var pre, mid, post :| Parts(ts, c.from, c.to, pre, mid, post);
        PartsAre(ts, c.from, c.to, pre, mid, post);
        hide Parts, IsRange;
        if c.Change? {
          var rest := TypedIs(c.lines);
          hide Typed;
        }
      }
    }
  }

  /** A run of one command, and a run after another one. */
  lemma RunObeys(a: seq<Command>, b: seq<Command>, c: Command, ts: seq<string>)
    requires ts != []
    ensures EditedAll([], ts) == ts && EditedAll([c], ts) == Edited(c, ts)
    ensures EditedAll(a + b, ts) == EditedAll(b, EditedAll(a, ts))
  {
    assert [c][..0] == [];
    EditedBoth(a, b, ts, true);
  }
}
