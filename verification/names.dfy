/** Variable names of the shell and the order that the variable tree keeps them in.
    A Char is a signed 16-bit quantity and a name is a run of Chars closed by a zero Char,
    so a stored name never contains zero. */
module Names {

  type Char = c: int | -0x8000 <= c < 0x8000 && c != 0 witness 1

  type Name = seq<Char>

  /** What the pointer dereference *name yields: the first Char, or the closing zero. */
  function First(s: Name): int {
    if s == [] then 0 else s[0]
  }

  function Diff(x: int, y: int): int {
    x - y
  }

  /** Strcmp: position by position, with the closing zero below every Char. */
  function Strcmp(a: Name, b: Name): int {
    if a == [] && b == [] then 0
    else if a == [] then -1
    else if b == [] then 1
    else if a[0] == b[0] then Strcmp(a[1..], b[1..])
    else Diff(a[0], b[0])
  }

  /** The comparison of the tree walks: first Chars numerically, then Strcmp. It differs from
      Strcmp alone on the empty name, which it places above the names that start negative. */
  function Compare(a: Name, b: Name): int {
    if First(a) != First(b) then Diff(First(a), First(b)) else Strcmp(a, b)
  }

  predicate Less(a: Name, b: Name) {
    Compare(a, b) < 0
  }

  lemma {:induction false} StrcmpOrder(a: Name, b: Name)
    ensures Strcmp(a, b) == 0 <==> a == b
    ensures Strcmp(a, b) < 0 <==> Strcmp(b, a) > 0
  {
    if a != [] && b != [] && a[0] == b[0] {
      StrcmpOrder(a[1..], b[1..]);
      assert a == [a[0]] + a[1..] && b == [b[0]] + b[1..];
    }
  }

  lemma {:induction false} StrcmpTransitive(a: Name, b: Name, c: Name)
    requires Strcmp(a, b) < 0 && Strcmp(b, c) < 0
    ensures Strcmp(a, c) < 0
  {
    if a != [] && b != [] && c != [] && a[0] == b[0] == c[0] {
      StrcmpTransitive(a[1..], b[1..], c[1..]);
    }
  }

  lemma CompareEqual(a: Name, b: Name)
    ensures Compare(a, b) == 0 <==> a == b
    ensures Compare(a, b) < 0 <==> Compare(b, a) > 0
  {
    StrcmpOrder(a, b);
  }

  lemma LessTransitive(a: Name, b: Name, c: Name)
    requires Less(a, b) && Less(b, c)
    ensures Less(a, c)
  {
    if First(a) == First(b) == First(c) {
      StrcmpTransitive(a, b, c);
    }
  }

  /** The mixed comparison is a strict total order, so it can carry a search tree. */
  lemma LessIsTotalOrder()
    ensures forall a: Name :: !Less(a, a)
    ensures forall a: Name, b: Name :: a == b || Less(a, b) || Less(b, a)
    ensures forall a: Name, b: Name, c: Name :: Less(a, b) && Less(b, c) ==> Less(a, c)
  {
    forall a: Name ensures !Less(a, a) { CompareEqual(a, a); }
    forall a: Name, b: Name ensures a == b || Less(a, b) || Less(b, a) {
      CompareEqual(a, b);
      CompareEqual(b, a);
    }
    forall a: Name, b: Name, c: Name | Less(a, b) && Less(b, c) ensures Less(a, c) {
      LessTransitive(a, b, c);
    }
  }

  // What the order is, position by position

  lemma {:induction false} StrcmpPrefix(p: Name, a: Name, b: Name)
    ensures Strcmp(p + a, p + b) == Strcmp(a, b)
  {
    if p == [] {
      assert p + a == a && p + b == b;
    } else {
      assert (p + a)[1..] == p[1..] + a && (p + b)[1..] == p[1..] + b;
      StrcmpPrefix(p[1..], a, b);
    }
  }

  /** A name stands before every longer name that begins with it. */
  lemma PrefixIsLess(p: Name, s: Name)
    requires p != [] && s != []
    ensures Less(p, p + s) && !Less(p + s, p)
  {
    StrcmpPrefix(p, [], s);
    StrcmpPrefix(p, s, []);
    assert p + [] == p;
  }

  /** Otherwise the first Char that is different decides. */
  lemma FirstDifference(p: Name, x: Char, y: Char, s: Name, t: Name)
    requires x < y
    ensures Less(p + [x] + s, p + [y] + t) && !Less(p + [y] + t, p + [x] + s)
  {
    StrcmpPrefix(p, [x] + s, [y] + t);
    StrcmpPrefix(p, [y] + t, [x] + s);
    assert p + [x] + s == p + ([x] + s) && p + [y] + t == p + ([y] + t);
  }

  /** The empty name stands where its closing zero stands among the first Chars. */
  lemma EmptyIsLess(s: Name)
    requires s != []
    ensures Less([], s) <==> s[0] > 0
    ensures Less(s, []) <==> s[0] < 0
  {
  }

  /** a comes before b in a listing, letter by letter: it begins b, or it has the smaller Char where
      they first differ, where the end of an empty name counts as zero. */
  ghost predicate Precedes(a: Name, b: Name) {
    || (a != [] && a < b)
    || (a == [] && b != [] && b[0] > 0)
    || (b == [] && a != [] && a[0] < 0)
    || exists k :: 0 <= k < |a| && k < |b| && a[..k] == b[..k] && a[k] < b[k]
  }

  /** Two names that agree up to a place. */
  lemma SplitAt(a: Name, k: nat)
    requires k < |a|
    ensures a == a[..k] + [a[k]] + a[k + 1..]
  {
  }

  lemma {:induction false} FirstPlace(a: Name, b: Name) returns (k: nat)
    ensures k <= |a| && k <= |b| && a[..k] == b[..k] && (k == |a| || k == |b| || a[k] != b[k])
  {
    k := 0;
    if a != [] && b != [] && a[0] == b[0] {
      k := FirstPlace(a[1..], b[1..]);
      k := k + 1;
      assert a[..k] == [a[0]] + a[1..][..k - 1] && b[..k] == [b[0]] + b[1..][..k - 1];
    }
  }

  lemma PrecedesIsLess(a: Name, b: Name)
    requires Precedes(a, b)
    ensures Less(a, b)
  {
    if a != [] && a < b {
      PrefixIsLess(a, b[|a|..]);
      assert b == a + b[|a|..];
    } else if a == [] || b == [] {
      EmptyIsLess(if a == [] then b else a);
    } else {
      var k :| 0 <= k < |a| && k < |b| && a[..k] == b[..k] && a[k] < b[k];
      SplitAt(a, k);
      SplitAt(b, k);
      FirstDifference(a[..k], a[k], b[k], a[k + 1..], b[k + 1..]);
    }
  }

  /** The comparison is exactly that order. */
  lemma LessIsPrecedes(a: Name, b: Name)
    ensures Less(a, b) <==> Precedes(a, b)
  {
    var k := FirstPlace(a, b);
    if !Precedes(a, b) && a != b {
      assert Precedes(b, a);
      PrecedesIsLess(b, a);
      CompareEqual(a, b);
    } else if a == b {
      CompareEqual(a, a);
    } else {
      PrecedesIsLess(a, b);
    }
  }
}
