/** src/bin/ed/ed.h: line nodes and the macros that link them. */
module EdLinks {
  import opened Seqs

  /** line_t: a node of the circular list of lines, and where its text is in the scratch file. */
  class Line {
    var q_forw: Line?
    var q_back: Line?
    const seek: nat
    const len: nat

    constructor (seek: nat, len: nat)
      ensures q_forw == null && q_back == null && this.seek == seek && this.len == len
    {
      q_forw, q_back := null, null;
      this.seek, this.len := seek, len;
    }
  }

  function INC_MOD(l: int, k: int): int {
    if l + 1 > k then 0 else l + 1
  }

  method REQUE(pred: Line, succ: Line)
    modifies pred`q_forw, succ`q_back
    ensures pred.q_forw == succ && succ.q_back == pred
  {
    pred.q_forw := succ;
    succ.q_back := pred;
  }

  ghost function Last(s: seq<Line>): Line
    requires s != []
  {
    s[|s| - 1]
  }

  ghost predicate Link(x: Line, y: Line)
    reads x, y
  {
    x.q_forw == y && y.q_back == x
  }

  ghost predicate Chain(s: seq<Line>)
    reads s
  {
    forall i {:trigger s[i]} :: 0 <= i < |s| - 1 ==> Link(s[i], s[i + 1])
  }

  /** The ring r, closed: its last node is linked to its first. */
  ghost predicate Ring(r: seq<Line>)
    reads r
  {
    r != [] && Distinct(r) && Chain(r + [r[0]])
  }

  lemma ChainJoin(s: seq<Line>, t: seq<Line>)
    requires s != [] && t != []
    ensures Chain(s + t) <==> Chain(s) && Chain(t) && Link(Last(s), t[0])
  {
    var u := s + t;
    if Chain(u) {
      forall i | 0 <= i < |s| - 1 ensures Link(s[i], s[i + 1]) {
        assert u[i] == s[i] && u[i + 1] == s[i + 1];
      }
      forall i | 0 <= i < |t| - 1 ensures Link(t[i], t[i + 1]) {
        assert u[|s| + i] == t[i] && u[|s| + i + 1] == t[i + 1];
      }
      assert u[|s| - 1] == Last(s) && u[|s|] == t[0];
    }
    if Chain(s) && Chain(t) && Link(Last(s), t[0]) {
      forall i | 0 <= i < |u| - 1 ensures Link(u[i], u[i + 1]) {
        if i < |s| - 1 {
          assert u[i] == s[i] && u[i + 1] == s[i + 1];
        } else if i >= |s| {
          assert u[i] == t[i - |s|] && u[i + 1] == t[i - |s| + 1];
        }
      }
    }
  }

  /** The ring a + b: two chains and the links between them. What follows b is the head, a[0]. */
  lemma RingOfTwo(a: seq<Line>, b: seq<Line>)
    requires a != []
    ensures var c := b + [a[0]];
      Ring(a + b) <==> Distinct(a + b) && Chain(a) && Chain(c) && Link(Last(a), c[0])
  {
    var c := b + [a[0]];
    assert (a + b) + [(a + b)[0]] == a + c;
    ChainJoin(a, c);
  }

  lemma RingOfThree(a: seq<Line>, x: seq<Line>, b: seq<Line>)
    requires a != [] && x != []
    ensures var c := b + [a[0]];
      Ring(a + x + b) <==> Distinct(a + x + b) && Chain(a) && Chain(x) && Chain(c) && Link(Last(a), x[0]) && Link(Last(x), c[0])
  {
    var c := b + [a[0]];
    assert (a + x + b) + [(a + x + b)[0]] == a + (x + c);
    ChainJoin(a, x + c);
    ChainJoin(x, c);
  }

  lemma RingOfFour(a: seq<Line>, x: seq<Line>, y: seq<Line>, b: seq<Line>)
    requires a != [] && x != [] && y != []
    ensures var c := b + [a[0]];
      Ring(a + x + y + b) <==>
        && Distinct(a + x + y + b) && Chain(a) && Chain(x) && Chain(y) && Chain(c)
        && Link(Last(a), x[0]) && Link(Last(x), y[0]) && Link(Last(y), c[0])
  {
    var c := b + [a[0]];
    assert (a + x + y + b) + [(a + x + y + b)[0]] == a + (x + (y + c));
    ChainJoin(a, x + (y + c));
    ChainJoin(x, y + c);
    ChainJoin(y, c);
  }
}
