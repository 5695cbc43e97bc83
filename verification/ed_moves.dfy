/** The three ways in which ed relinks its lines: cutting a segment out of the ring, pasting it
    back, and exchanging two neighbouring segments. */
module EdMoves {
  import opened EdLinks
  import opened Seqs

  /** What follows b in a ring that starts with a: the first of b, or the head. */
  ghost function Next(a: seq<Line>, b: seq<Line>): Line
    requires a != []
  {
    if b == [] then a[0] else b[0]
  }

  /** The segment is out of the ring a + b, but its links still say where it was. */
  ghost predicate Detached(a: seq<Line>, seg: seq<Line>, b: seq<Line>)
    requires a != [] && seg != []
    reads seg
  {
    Chain(seg) && seg[0].q_back == Last(a) && Last(seg).q_forw == Next(a, b)
  }

  /** Distinct, by parts. */
  ghost predicate Apart<T>(s: seq<T>, t: seq<T>) {
    forall i, j :: 0 <= i < |s| && 0 <= j < |t| ==> s[i] != t[j]
  }

  lemma DistinctParts<T>(s: seq<T>, t: seq<T>)
    ensures Distinct(s + t) <==> Distinct(s) && Distinct(t) && Apart(s, t)
  {
    var u := s + t;
    if Distinct(u) {
      forall i, j | 0 <= i < j < |s| ensures s[i] != s[j] { assert u[i] == s[i] && u[j] == s[j]; }
      forall i, j | 0 <= i < j < |t| ensures t[i] != t[j] { assert u[|s| + i] == t[i] && u[|s| + j] == t[j]; }
      forall i, j | 0 <= i < |s| && 0 <= j < |t| ensures s[i] != t[j] { assert u[i] == s[i] && u[|s| + j] == t[j]; }
    }
  }

  lemma DistinctThree<T>(a: seq<T>, x: seq<T>, b: seq<T>)
    ensures Distinct(a + x + b) <==>
      Distinct(a) && Distinct(x) && Distinct(b) && Apart(a, x) && Apart(a, b) && Apart(x, b)
  {
    DistinctParts(a + x, b);
    DistinctParts(a, x);
    ApartParts(a, x, b);
  }

  lemma ApartParts<T>(a: seq<T>, x: seq<T>, b: seq<T>)
    ensures Apart(a + x, b) <==> Apart(a, b) && Apart(x, b)
  {
    var u := a + x;
    if Apart(u, b) {
      forall i, j | 0 <= i < |a| && 0 <= j < |b| ensures a[i] != b[j] { assert u[i] == a[i]; }
      forall i, j | 0 <= i < |x| && 0 <= j < |b| ensures x[i] != b[j] { assert u[|a| + i] == x[i]; }
    }
  }

  lemma DistinctFour<T>(a: seq<T>, x: seq<T>, y: seq<T>, b: seq<T>)
    ensures Distinct(a + x + y + b) <==>
      Distinct(a) && Distinct(x) && Distinct(y) && Distinct(b)
      && Apart(a, x) && Apart(a, y) && Apart(a, b) && Apart(x, y) && Apart(x, b) && Apart(y, b)
  {
    DistinctThree(a + x, y, b);
    DistinctParts(a, x);
    ApartParts(a, x, y);
    ApartParts(a, x, b);
  }

  /** REQUE(p, n), where p and n are the neighbours of the segment. */
  method Cut(p: Line, n: Line, ghost a: seq<Line>, ghost seg: seq<Line>, ghost b: seq<Line>)
    requires a != [] && seg != [] && Ring(a + seg + b) && p == Last(a) && n == Next(a, b)
    modifies p`q_forw, n`q_back
    ensures Ring(a + b) && Detached(a, seg, b)
  {
    ghost var c := b + [a[0]];
    RingOfThree(a, seg, b);
    DistinctThree(a, seg, b);
    DistinctParts(a, b);
    REQUE(p, n);
    assert Chain(a) && Chain(seg) && Chain(c);
    RingOfTwo(a, b);
  }

  /** INSQUE(x, cp): x comes after cp, the last of a. */
  method INSQUE(x: Line, cp: Line, ghost a: seq<Line>, ghost b: seq<Line>)
    requires a != [] && Ring(a + b) && cp == Last(a) && x !in a + b && cp.q_forw != null
    modifies x`q_forw, x`q_back, cp`q_forw, Next(a, b)`q_back
    ensures Ring(a + [x] + b)
  {
    ghost var c := b + [a[0]];
    RingOfTwo(a, b);
    DistinctParts(a, b);
    DistinctThree(a, [x], b);
    REQUE(x, cp.q_forw);
    REQUE(cp, x);
    assert Chain(a) && Chain([x]) && Chain(c);
    RingOfThree(a, [x], b);
  }

  /** Both REQUEs of undoing a delete. */
  method Paste(h: Line, t: Line, ghost a: seq<Line>, ghost seg: seq<Line>, ghost b: seq<Line>)
    requires a != [] && seg != [] && Ring(a + b) && Detached(a, seg, b) && Distinct(a + seg + b)
    requires h == seg[0] && t == Last(seg) && h.q_back != null && t.q_forw != null
    modifies Last(a)`q_forw, h`q_back, t`q_forw, Next(a, b)`q_back
    ensures Ring(a + seg + b)
  {
    ghost var c := b + [a[0]];
    RingOfTwo(a, b);
    DistinctThree(a, seg, b);
    REQUE(h.q_back, h);
    REQUE(t, t.q_forw);
    assert Chain(a) && Chain(seg) && Chain(c);
    RingOfThree(a, seg, b);
  }

  /** No link inside s is one of those that the nodes of fs have forwards and those of bs have
      backwards. */
  ghost predicate Spared(s: seq<Line>, fs: set<Line>, bs: set<Line>) {
    forall i {:trigger s[i]} :: 0 <= i < |s| - 1 ==> s[i] !in fs && s[i + 1] !in bs
  }

  /** Relinking segments at their ends leaves their insides alone. */
  lemma SparedFour(a: seq<Line>, x: seq<Line>, y: seq<Line>, b: seq<Line>)
    requires a != [] && x != [] && y != [] && Distinct(a + x + y + b)
    ensures var fs, bs := {Last(a), Last(x), Last(y)}, {x[0], y[0], Next(a, b)};
      Spared(a, fs, bs) && Spared(x, fs, bs) && Spared(y, fs, bs) && Spared(b + [a[0]], fs, bs)
    ensures Last(a) != Last(x) && Last(a) != Last(y) && Last(x) != Last(y)
    ensures x[0] != y[0] && x[0] != Next(a, b) && y[0] != Next(a, b)
    ensures Distinct(a + y + x + b)
  {
    DistinctFour(a, x, y, b);
    DistinctFour(a, y, x, b);
  }

  /** The three REQUEs of pop_undo_stack for a pair of move entries. */
  method Requeue(lh: Line, lt: Line, uh: Line, ut: Line, ghost fs: set<Line>, ghost bs: set<Line>)
    requires uh.q_forw != null && ut.q_back != null
    requires lh != ut.q_back && lh != uh && ut.q_back != uh
    requires uh.q_forw != lt && uh.q_forw != ut && lt != ut
    requires lh in fs && ut.q_back in fs && uh in fs
    requires uh.q_forw in bs && lt in bs && ut in bs
    modifies fs`q_forw, bs`q_back
    ensures Link(lh, old(uh.q_forw)) && Link(old(ut.q_back), lt) && Link(uh, ut)
  {
    REQUE(lh, uh.q_forw);
    REQUE(ut.q_back, lt);
    REQUE(uh, ut);
  }

  /** ustack[n - 1] is (lh, lt) and ustack[n] is (uh, ut): y and x are exchanged once more. */
  method MoveBack(lh: Line, lt: Line, uh: Line, ut: Line,
                  ghost a: seq<Line>, ghost x: seq<Line>, ghost y: seq<Line>, ghost b: seq<Line>, ghost up: bool)
    requires a != [] && x != [] && y != [] && Ring(a + y + x + b)
    requires up ==> lh == Last(x) && lt == Next(a, b) && uh == Last(a) && ut == x[0]
    requires !up ==> lh == Last(a) && lt == y[0] && uh == Last(y) && ut == Next(a, b)
    modifies {Last(a), Last(x), Last(y)}`q_forw, {x[0], y[0], Next(a, b)}`q_back
    ensures Ring(a + x + y + b)
  {
    ghost var c := b + [a[0]];
    RingOfFour(a, y, x, b);
    SparedFour(a, y, x, b);
    ghost var fs, bs := {Last(a), Last(x), Last(y)}, {x[0], y[0], Next(a, b)};
    Requeue(lh, lt, uh, ut, fs, bs);
    assert Chain(a);
    assert Chain(x);
    assert Chain(y);
    assert Chain(c);
    if up {
      assert Link(Last(a), x[0]) && Link(Last(x), y[0]) && Link(Last(y), Next(a, b));
    } else {
      assert Link(Last(a), x[0]) && Link(Last(x), y[0]) && Link(Last(y), Next(a, b));
    }
    RingOfFour(a, x, y, b);
  }
}
