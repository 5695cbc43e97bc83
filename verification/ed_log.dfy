/** What the undo stack of ed records: the changes since it was last cleared, each with the ring
    of lines before and after it. */
module EdLog {
  import opened EdLinks
  import opened EdMoves
  import opened Seqs

  datatype Kind = UADD | UDEL | UMOV | VMOV {
    /** The type that undoing turns the entry into. */
    function Flip(): Kind {
      match this
      case UADD => UDEL
      case UDEL => UADD
      case UMOV => VMOV
      case VMOV => UMOV
    }
  }

  /** undo_t */
  datatype Undo = Undo(kind: Kind, h: Line, t: Line)

  /** Ins turns a + b into a + seg + b, Del does the reverse, and Mov turns a + x + y + b into
      a + y + x + b: it moves y up over x (up), or x down over y. */
  datatype Change =
    | Ins(a: seq<Line>, seg: seq<Line>, b: seq<Line>)
    | Del(a: seq<Line>, seg: seq<Line>, b: seq<Line>)
    | Mov(a: seq<Line>, x: seq<Line>, y: seq<Line>, b: seq<Line>, up: bool)

  type Log = seq<Change>

  ghost predicate WellFormed(c: Change) {
    c.a != [] && if c.Mov? then c.x != [] && c.y != [] else c.seg != []
  }

  ghost function Before(c: Change): seq<Line> {
    match c
    case Ins(a, seg, b) => a + b
    case Del(a, seg, b) => a + seg + b
    case Mov(a, x, y, b, up) => a + x + y + b
  }

  ghost function After(c: Change): seq<Line> {
    match c
    case Ins(a, seg, b) => a + seg + b
    case Del(a, seg, b) => a + b
    case Mov(a, x, y, b, up) => a + y + x + b
  }

  ghost function Inverse(c: Change): Change {
    match c
    case Ins(a, seg, b) => Del(a, seg, b)
    case Del(a, seg, b) => Ins(a, seg, b)
    case Mov(a, x, y, b, up) => Mov(a, y, x, b, !up)
  }

  /** The lines that are in the ring on one side of the change only. */
  ghost function Passing(c: Change): seq<Line> {
    if c.Mov? then [] else c.seg
  }

  /** The entries that a change leaves on the undo stack; the two move types count as one. */
  ghost function Entries(c: Change): (us: seq<Undo>)
    requires WellFormed(c)
    ensures |us| == if c.Mov? then 2 else 1
  {
    match c
    case Ins(a, seg, b) => [Undo(UADD, seg[0], Last(seg))]
    case Del(a, seg, b) => [Undo(UDEL, seg[0], Last(seg))]
    case Mov(a, x, y, b, up) =>
      if up then [Undo(UMOV, Last(x), Next(a, b)), Undo(UMOV, Last(a), x[0])]
      else [Undo(UMOV, Last(a), y[0]), Undo(UMOV, Last(y), Next(a, b))]
  }

  ghost function Norm(u: Undo): Undo {
    if u.kind == VMOV then u.(kind := UMOV) else u
  }

  ghost function Flipped(u: Undo): Undo {
    if u.kind.UADD? || u.kind.UDEL? then u.(kind := u.kind.Flip()) else Norm(u)
  }

  ghost function Reverse<T>(s: seq<T>): seq<T> {
    seq(|s|, i requires 0 <= i < |s| => s[|s| - 1 - i])
  }

  ghost predicate AllWellFormed(log: Log) {
    forall k {:trigger log[k]} :: 0 <= k < |log| ==> WellFormed(log[k])
  }

  /** The undo stack that belongs to a log. */
  ghost function Flat(log: Log): seq<Undo>
    requires AllWellFormed(log)
  {
    if log == [] then [] else Flat(log[..|log| - 1]) + Entries(log[|log| - 1])
  }

  /** The log of undoing everything in log, last change first. */
  ghost function Undone(log: Log): Log {
    seq(|log|, k requires 0 <= k < |log| => Inverse(log[|log| - 1 - k]))
  }

  lemma UndoneAt(log: Log, k: nat)
    requires k < |log|
    ensures |Undone(log)| == |log| && Undone(log)[k] == Inverse(log[|log| - 1 - k])
  {
  }

  lemma InverseTwice(c: Change)
    ensures Inverse(Inverse(c)) == c
    ensures WellFormed(c) ==> WellFormed(Inverse(c)) && Before(Inverse(c)) == After(c) && After(Inverse(c)) == Before(c)
  {
  }

  lemma UndoneWellFormed(log: Log)
    requires AllWellFormed(log)
    ensures AllWellFormed(Undone(log))
  {
    forall k | 0 <= k < |log| ensures WellFormed(Undone(log)[k]) {
      UndoneAt(log, k);
      InverseTwice(log[|log| - 1 - k]);
    }
  }

  lemma UndoneTwice(log: Log)
    ensures Undone(Undone(log)) == log
  {
    forall k | 0 <= k < |log| ensures Undone(Undone(log))[k] == log[k] {
      UndoneAt(log, |log| - 1 - k);
      UndoneAt(Undone(log), k);
      InverseTwice(log[k]);
    }
  }

  lemma {:induction false} FlatFront(c: Change, log: Log)
    requires AllWellFormed([c] + log) && AllWellFormed(log) && WellFormed(c)
    ensures Flat([c] + log) == Entries(c) + Flat(log)
  {
    var s := [c] + log;
    if log == [] {
      assert s == [c] && s[..0] == [];
      assert Flat(s[..0]) == [];
    } else {
      var init, last := log[..|log| - 1], log[|log| - 1];
      assert s[..|s| - 1] == [c] + init;
      FlatFront(c, init);
      assert s[|s| - 1] == last;
      assert Entries(c) + Flat(init) + Entries(last) == Entries(c) + (Flat(init) + Entries(last));
    }
  }

  ghost predicate FlippedReverse(us: seq<Undo>, vs: seq<Undo>) {
    |vs| == |us| && forall i :: 0 <= i < |us| ==> vs[i] == Flipped(us[|us| - 1 - i])
  }

  lemma FlippedEntries(c: Change)
    requires WellFormed(c)
    ensures WellFormed(Inverse(c)) && FlippedReverse(Entries(c), Entries(Inverse(c)))
  {
  }

  lemma FlippedConcat(us: seq<Undo>, vs: seq<Undo>, us': seq<Undo>, vs': seq<Undo>)
    requires FlippedReverse(us, us') && FlippedReverse(vs, vs')
    ensures FlippedReverse(us + vs, vs' + us')
  {
  }

  /** Turning every entry of the stack over and reversing the stack makes the stack that belongs
      to the undone log. */
  lemma {:induction false} FlatUndone(log: Log)
    requires AllWellFormed(log)
    ensures AllWellFormed(Undone(log)) && FlippedReverse(Flat(log), Flat(Undone(log)))
  {
    UndoneWellFormed(log);
    if log != [] {
      var init, c := log[..|log| - 1], log[|log| - 1];
      FlatUndone(init);
      assert Undone(log) == [Inverse(c)] + Undone(init);
      FlippedEntries(c);
      FlatFront(Inverse(c), Undone(init));
      FlippedConcat(Flat(init), Entries(c), Flat(Undone(init)), Entries(Inverse(c)));
    }
  }

  /** rings[k] is the ring before the k-th change of the log, and the last of the rings is the
      present one. A line that a change takes out of the ring is in none of the later rings, and
      one that it puts in is in none of the earlier ones. */
  ghost predicate Leads(rings: seq<seq<Line>>, log: Log) {
    && |rings| == |log| + 1 && AllWellFormed(log)
    && (forall k {:trigger log[k]} :: 0 <= k < |log| ==> Before(log[k]) == rings[k] && After(log[k]) == rings[k + 1])
    && (forall k {:trigger rings[k]} :: 0 <= k < |rings| ==> Distinct(rings[k]))
    && (forall k, j {:trigger log[k], rings[j]} :: 0 <= k < j < |rings| && log[k].Del? ==> Apart(log[k].seg, rings[j]))
    && (forall k, j {:trigger log[k], rings[j]} :: 0 <= j <= k < |log| && log[k].Ins? ==> Apart(log[k].seg, rings[j]))
  }

  lemma ReverseAt<T>(s: seq<T>, k: nat)
    requires k < |s|
    ensures |Reverse(s)| == |s| && Reverse(s)[k] == s[|s| - 1 - k]
  {
  }

  /** The undone log leads back, under the same conditions. */
  lemma LeadsBack(rings: seq<seq<Line>>, log: Log)
    requires Leads(rings, log)
    ensures Leads(Reverse(rings), Undone(log))
  {
    var r, s, n := Undone(log), Reverse(rings), |log|;
    UndoneWellFormed(log);
    forall k | 0 <= k < n ensures Before(r[k]) == s[k] && After(r[k]) == s[k + 1] {
      UndoneAt(log, k);
      ReverseAt(rings, k);
      ReverseAt(rings, k + 1);
      InverseTwice(log[n - 1 - k]);
    }
    forall k | 0 <= k < |s| ensures Distinct(s[k]) {
      ReverseAt(rings, k);
    }
    forall k, j | 0 <= k < |r| && 0 <= j < |s| ensures
      && (k < j && r[k].Del? ==> Apart(r[k].seg, s[j]))
      && (j <= k && r[k].Ins? ==> Apart(r[k].seg, s[j]))
    {
      UndoneAt(log, k);
      ReverseAt(rings, j);
      var c, ring := log[n - 1 - k], rings[n - j];
    }
  }
}
