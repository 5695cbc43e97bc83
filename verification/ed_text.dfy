/** src/bin/ed: the buffer as a sequence of texts, and what the commands do to it. */
module EdText {
  import opened EdLinks
  import opened EdLog
  import opened EdBuffer

  /** The commands that the core operations serve, with their addresses resolved. */
  datatype Command =
    | Append(n: int, lines: seq<string>)
    | Change(from: int, to: int, lines: seq<string>)
    | Delete(from: int, to: int)
    | Move(from: int, to: int, addr: int)
    | Copy(from: int, to: int, addr: int)
    | Join(from: int, to: int)

  /** The addresses that exec_command lets through. */
  predicate InRange(c: Command, addr_last: int) {
    match c
    case Append(n, lines) => 0 <= n <= addr_last
    case Change(from, to, lines) => 1 <= from <= to <= addr_last
    case Delete(from, to) => 1 <= from <= to <= addr_last
    case Move(from, to, addr) => 1 <= from <= to <= addr_last && 0 <= addr <= addr_last && !(from <= addr < to)
    case Copy(from, to, addr) => 1 <= from <= to <= addr_last && 0 <= addr <= addr_last
    case Join(from, to) => 1 <= from <= to <= addr_last
  }

  /** The texts of lines. */
  ghost function Texts(file: string, r: seq<Line>): (ts: seq<string>)
    ensures |ts| == |r|
  {
    seq(|r|, i requires 0 <= i < |r| => TextOf(file, r[i]))
  }

  function Concat(ts: seq<string>): string {
    if ts == [] then "" else Concat(ts[..|ts| - 1]) + ts[|ts| - 1]
  }

  /** news after index n */
  function Put<T>(s: seq<T>, n: nat, news: seq<T>): seq<T>
    requires n < |s|
  {
    s[..n + 1] + news + s[n + 1..]
  }

  function Drop<T>(s: seq<T>, from: nat, to: nat): seq<T>
    requires from <= to < |s|
  {
    s[..from] + s[to + 1..]
  }

  /** The elements from one index to another go after index addr. */
  function Shift<T>(s: seq<T>, from: nat, to: nat, addr: nat): seq<T>
    requires 1 <= from <= to < |s| && addr < |s| && !(from <= addr < to)
  {
    if addr == from - 1 || addr == to then s
    else if addr < from then s[..addr + 1] + s[from..to + 1] + s[addr + 1..from] + s[to + 1..]
    else s[..from] + s[to + 1..addr + 1] + s[from..to + 1] + s[addr + 1..]
  }

  /** What a command makes of the texts of the buffer; index 0 stands for the head. */
  function Edited(c: Command, ts: seq<string>): (r: seq<string>)
    requires ts != []
    ensures r != []
  {
    if !InRange(c, |ts| - 1) then ts
    else match c
      case Append(n, lines) => Put(ts, n, Taken(lines))
      case Change(from, to, lines) => Put(Drop(ts, from, to), from - 1, Taken(lines))
      case Delete(from, to) => Drop(ts, from, to)
      case Move(from, to, addr) => Shift(ts, from, to, addr)
      case Copy(from, to, addr) => Put(ts, addr, ts[from..to + 1])
      case Join(from, to) => if from == to then ts else Put(Drop(ts, from, to), from - 1, [Concat(ts[from..to + 1])])
  }

  /** Any number of commands, one after the other. */
  function EditedAll(cs: seq<Command>, ts: seq<string>): (r: seq<string>)
    requires ts != []
    ensures r != []
  {
    if cs == [] then ts else Edited(cs[|cs| - 1], EditedAll(cs[..|cs| - 1], ts))
  }

  /** Every command finds its addresses in range, but for the last one if the run ends in an error. */
  predicate Ran(cs: seq<Command>, ts: seq<string>, ok: bool)
    requires ts != []
    decreases |cs|, ok
  {
    if ok then cs == [] || (Ran(cs[..|cs| - 1], ts, true) && InRange(cs[|cs| - 1], |EditedAll(cs[..|cs| - 1], ts)| - 1))
    else cs != [] && Ran(cs[..|cs| - 1], ts, true) && !InRange(cs[|cs| - 1], |EditedAll(cs[..|cs| - 1], ts)| - 1)
  }

  /** A run after another one. */
  lemma {:induction false} EditedBoth(a: seq<Command>, b: seq<Command>, ts: seq<string>, ok: bool)
    requires ts != []
    ensures EditedAll(a + b, ts) == EditedAll(b, EditedAll(a, ts))
    ensures Ran(a, ts, true) && Ran(b, EditedAll(a, ts), ok) ==> Ran(a + b, ts, ok)
    decreases |b|, ok
  {
    if b == [] {
      assert a + b == a;
    } else {
      var init := b[..|b| - 1];
      EditedBoth(a, init, ts, true);
      assert (a + b)[..|a + b| - 1] == a + init && (a + b)[|a + b| - 1] == b[|b| - 1];
      hide Edited, InRange;
    }
  }

  lemma TextsJoin(file: string, a: seq<Line>, b: seq<Line>)
    ensures Texts(file, a + b) == Texts(file, a) + Texts(file, b)
  {
  }

  lemma TextsSlice(file: string, r: seq<Line>, i: nat, j: nat)
    requires i <= j <= |r|
    ensures Texts(file, r[i..j]) == Texts(file, r)[i..j]
  {
  }

  /** Texts stay what they are when the file grows. */
  lemma TextsLater(file: string, file': string, r: seq<Line>)
    requires file <= file' && RingInFile(file, r)
    ensures Texts(file', r) == Texts(file, r)
  {
    forall i | 0 <= i < |r| ensures TextOf(file', r[i]) == TextOf(file, r[i]) {
      assert r[i] in r;
    }
  }

  lemma TextsHave(file: string, xs: seq<Line>, ss: seq<string>)
    requires HaveAll(file, xs, ss)
    ensures Texts(file, xs) == ss
  {
    forall i | 0 <= i < |xs| ensures TextOf(file, xs[i]) == ss[i] {
      assert Has(file, xs[i], ss[i]);
    }
  }

  lemma TextsPut(file: string, file': string, r: seq<Line>, n: nat, news: seq<Line>)
    requires file <= file' && RingInFile(file, r) && n < |r|
    ensures Texts(file', Put(r, n, news)) == Put(Texts(file, r), n, Texts(file', news))
  {
    TextsLater(file, file', r);
    TextsJoin(file', r[..n + 1] + news, r[n + 1..]);
    TextsJoin(file', r[..n + 1], news);
    TextsSlice(file', r, 0, n + 1);
    TextsSlice(file', r, n + 1, |r|);
  }

  lemma TextsDrop(file: string, r: seq<Line>, from: nat, to: nat)
    requires from <= to < |r|
    ensures Texts(file, Drop(r, from, to)) == Drop(Texts(file, r), from, to)
  {
    TextsJoin(file, r[..from], r[to + 1..]);
    TextsSlice(file, r, 0, from);
    TextsSlice(file, r, to + 1, |r|);
  }

  lemma TextsFour(file: string, a: seq<Line>, x: seq<Line>, y: seq<Line>, b: seq<Line>)
    ensures Texts(file, a + x + y + b) == Texts(file, a) + Texts(file, x) + Texts(file, y) + Texts(file, b)
  {
    TextsJoin(file, a + x + y, b);
    TextsJoin(file, a + x, y);
    TextsJoin(file, a, x);
  }

  lemma ShiftUp<T>(s: seq<T>, from: nat, to: nat, addr: nat)
    requires 1 <= from <= to < |s| && addr < from - 1
    ensures Shift(s, from, to, addr) == s[0..addr + 1] + s[from..to + 1] + s[addr + 1..from] + s[to + 1..|s|]
  {
  }

  lemma ShiftDown<T>(s: seq<T>, from: nat, to: nat, addr: nat)
    requires 1 <= from <= to < addr < |s|
    ensures Shift(s, from, to, addr) == s[0..from] + s[to + 1..addr + 1] + s[from..to + 1] + s[addr + 1..|s|]
  {
  }

  lemma TextsUp(file: string, r: seq<Line>, from: nat, to: nat, addr: nat)
    requires 1 <= from <= to < |r| && addr < from - 1
    ensures Texts(file, Shift(r, from, to, addr)) == Shift(Texts(file, r), from, to, addr)
  {
    hide *;
    ShiftUp(r, from, to, addr);
    ShiftUp(Texts(file, r), from, to, addr);
    TextsFour(file, r[0..addr + 1], r[from..to + 1], r[addr + 1..from], r[to + 1..|r|]);
    TextsSlice(file, r, 0, addr + 1);
    TextsSlice(file, r, from, to + 1);
    TextsSlice(file, r, addr + 1, from);
    TextsSlice(file, r, to + 1, |r|);
  }

  lemma TextsDown(file: string, r: seq<Line>, from: nat, to: nat, addr: nat)
    requires 1 <= from <= to < addr < |r|
    ensures Texts(file, Shift(r, from, to, addr)) == Shift(Texts(file, r), from, to, addr)
  {
    hide *;
    ShiftDown(r, from, to, addr);
    ShiftDown(Texts(file, r), from, to, addr);
    TextsFour(file, r[0..from], r[to + 1..addr + 1], r[from..to + 1], r[addr + 1..|r|]);
    TextsSlice(file, r, 0, from);
    TextsSlice(file, r, to + 1, addr + 1);
    TextsSlice(file, r, from, to + 1);
    TextsSlice(file, r, addr + 1, |r|);
  }

  lemma TextsShift(file: string, r: seq<Line>, from: nat, to: nat, addr: nat)
    requires 1 <= from <= to < |r| && addr < |r| && !(from <= addr < to)
    ensures Texts(file, Shift(r, from, to, addr)) == Shift(Texts(file, r), from, to, addr)
  {
    if addr < from - 1 {
      TextsUp(file, r, from, to, addr);
    } else if addr > to {
      TextsDown(file, r, from, to, addr);
    }
  }

  /** move_lines, on lines as on texts */
  lemma MovedIs(r: seq<Line>, from: int, to: int, addr: int)
    requires 1 <= from <= to < |r| && 0 <= addr < |r| && (addr < from - 1 || addr > to)
    ensures After(MovOf(r, from, to, addr)) == Shift(r, from, to, addr)
  {
  }

  lemma TextsCopies(file: string, news: seq<Line>, r: seq<Line>, first: int)
    requires Copies(news, r, first)
    ensures 0 <= first && first + |news| <= |r| && Texts(file, news) == Texts(file, r)[first..first + |news|]
  {
    forall i | 0 <= i < |news| ensures TextOf(file, news[i]) == TextOf(file, r[first + i]) {
      assert news[i].seek == r[first + i].seek && news[i].len == r[first + i].len;
    }
  }

  lemma LastSlice(ts: seq<string>, from: nat, end: nat)
    requires from < end <= |ts|
    ensures Concat(ts[from..end]) == Concat(ts[from..end - 1]) + ts[end - 1]
  {
    var s := ts[from..end];
    assert s[..|s| - 1] == ts[from..end - 1];
  }

  lemma TextAt(file: string, r: seq<Line>, k: nat)
    requires k < |r|
    ensures |Texts(file, r)| == |r| && Texts(file, r)[k] == TextOf(file, r[k])
  {
  }

  lemma {:induction false} JoinedIs(file: string, r: seq<Line>, from: nat, end: nat)
    requires from <= end <= |r|
    ensures Joined(file, r, from, end) == Concat(Texts(file, r)[from..end])
  {
    hide Texts, TextOf;
    if from < end {
      JoinedIs(file, r, from, end - 1);
      TextAt(file, r, end - 1);
      LastSlice(Texts(file, r), from, end);
      hide Concat;
    }
  }
}
