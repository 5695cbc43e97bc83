/** Sequences: what several of the programs' models need to say of them. */
module Seqs {

  ghost predicate Distinct<T>(s: seq<T>) {
    forall i, j :: 0 <= i < j < |s| ==> s[i] != s[j]
  }

  lemma Different<T>(s: seq<T>, i: nat, k: nat)
    requires Distinct(s) && i < |s| && k < |s|
    ensures s[i] == s[k] <==> i == k
  {
  }

  lemma Assoc<T>(a: seq<T>, b: seq<T>, c: seq<T>)
    ensures a + (b + c) == (a + b) + c
  {
  }

  /** The index after i, around a ring of n. */
  function Succ(i: nat, n: nat): nat {
    if i + 1 < n then i + 1 else 0
  }

  /** r, from index s on. */
  ghost function Rot<T>(r: seq<T>, s: nat): seq<T>
    requires s <= |r|
  {
    r[s..] + r[..s]
  }

  lemma RotAt<T>(r: seq<T>, s: nat, k: nat)
    requires s < |r| && k < |r|
    ensures var i := if s + k < |r| then s + k else s + k - |r|;
      |Rot(r, s)| == |r| && Rot(r, s)[k] == r[i] && Rot(r, s)[Succ(k, |r|)] == r[Succ(i, |r|)]
  {
  }

  lemma RotMembers<T>(r: seq<T>, s: nat)
    requires s < |r|
    ensures forall q :: q in Rot(r, s) <==> q in r
    ensures Distinct(r) ==> Distinct(Rot(r, s))
  {
    assert r == r[..s] + r[s..];
    forall j, k | 0 <= j < k < |r| && Distinct(r) ensures Rot(r, s)[j] != Rot(r, s)[k] {
      RotAt(r, s, j);
      RotAt(r, s, k);
    }
  }
}
