/** src/bin/csh/vis.c: the encoding of strings and blocks, and what comes of too little room. */
module VisText {
  import opened Seqs
  import opened VisCode

  /** The character after the one at k; after the last one, that is taken to be a NUL. */
  function NextOf(s: Bytes, k: nat): Byte
    requires k < |s|
  {
    if k + 1 < |s| then s[k + 1] else 0
  }

  function CodeAt(s: Bytes, f: Flags, k: nat): Bytes
    requires k < |s|
  {
    VisOf(s[k], f, NextOf(s, k))
  }

  /** The encodings of the first k characters of s. */
  ghost function Encoded(s: Bytes, f: Flags, k: nat): Bytes
    requires k <= |s|
  {
    if k == 0 then [] else Encoded(s, f, k - 1) + CodeAt(s, f, k - 1)
  }

  /** The encodings of the characters from k on. */
  ghost function EncodedFrom(s: Bytes, f: Flags, k: nat): Bytes
    requires k <= |s|
    decreases |s| - k
  {
    if k == |s| then [] else CodeAt(s, f, k) + EncodedFrom(s, f, k + 1)
  }

  lemma {:induction false} EncodedSplit(s: Bytes, f: Flags, k: nat)
    requires k <= |s|
    ensures Encoded(s, f, |s|) == Encoded(s, f, k) + EncodedFrom(s, f, k)
    decreases |s| - k
  {
    if k < |s| {
      EncodedSplit(s, f, k + 1);
      Assoc(Encoded(s, f, k), CodeAt(s, f, k), EncodedFrom(s, f, k + 1));
    } else {
      assert Encoded(s, f, k) + [] == Encoded(s, f, k);
    }
  }

  /** At most four bytes for each, and at least one. */
  lemma {:induction false} EncodedSize(s: Bytes, f: Flags, k: nat)
    requires k <= |s|
    ensures k <= |Encoded(s, f, k)| <= 4 * k
  {
    if k > 0 {
      EncodedSize(s, f, k - 1);
      VisSize(s[k - 1], f, NextOf(s, k - 1));
    }
  }

  // Decoding

  datatype Text = Failed | Decoded(s: Bytes)

  function Decode(t: Bytes, noslash: bool): Text
    decreases |t|
  {
    if t == [] then Decoded([])
    else
      var d := DecodeOne(t, noslash);
      if d.Bad? || d.n == 0 || d.n > |t| then Failed
      else
        var r := Decode(t[d.n..], noslash);
        if r.Failed? then Failed else Decoded([d.c] + r.s)
  }

  lemma FollowsAt(s: Bytes, f: Flags, k: nat)
    requires k < |s|
    ensures Follows(EncodedFrom(s, f, k + 1), f, NextOf(s, k))
  {
    if k + 1 < |s| {
      FirstByte(s[k + 1], f, NextOf(s, k + 1));
      VisSize(s[k + 1], f, NextOf(s, k + 1));
    }
  }

  lemma {:induction false} DecodeFrom(s: Bytes, f: Flags, k: nat)
    requires k <= |s| && Clear(f)
    ensures Decode(EncodedFrom(s, f, k), f.noslash) == Decoded(s[k..])
    decreases |s| - k
  {
    if k < |s| {
      var v, u := CodeAt(s, f, k), EncodedFrom(s, f, k + 1);
      DecodeFrom(s, f, k + 1);
      FollowsAt(s, f, k);
      VisBack(s[k], f, NextOf(s, k), u);
      VisSize(s[k], f, NextOf(s, k));
      hide VisOf, DecodeOne, EncodedFrom;
      assert EncodedFrom(s, f, k) == v + u by { FromStep(s, f, k); }
      assert (v + u)[|v|..] == u;
      assert s[k..] == [s[k]] + s[k + 1..];
    } else {
      assert s[k..] == [];
    }
  }

  lemma FromStep(s: Bytes, f: Flags, k: nat)
    requires k < |s|
    ensures EncodedFrom(s, f, k) == CodeAt(s, f, k) + EncodedFrom(s, f, k + 1)
  {
  }

  /** Any block of bytes can be told from its encoding. */
  lemma DecodeEncoded(s: Bytes, f: Flags)
    requires Clear(f)
    ensures Decode(Encoded(s, f, |s|), f.noslash) == Decoded(s)
  {
    EncodedSplit(s, f, 0);
    DecodeFrom(s, f, 0);
    assert [] + EncodedFrom(s, f, 0) == EncodedFrom(s, f, 0) && s[0..] == s;
  }

  /** Two blocks with the same encoding. */
  ghost predicate Confused(f: Flags) {
    exists s: Bytes, s': Bytes :: s != s' && Encoded(s, f, |s|) == Encoded(s', f, |s'|)
  }

  lemma {:induction false} PlainText(s: Bytes, f: Flags, k: nat)
    requires k <= |s| && forall i, nextc :: 0 <= i < |s| ==> VisOf(s[i], f, nextc) == [s[i]]
    ensures Encoded(s, f, k) == s[..k]
  {
    if k > 0 {
      PlainText(s, f, k - 1);
      assert s[..k] == s[..k - 1] + [s[k - 1]];
    }
  }

  /** The encoding is unambiguous exactly for the flags that keep the backslashes, or that encode
      every character: otherwise control-A cannot be told from what its encoding looks like. */
  lemma ClearIsClear(f: Flags)
    ensures Confused(f) <==> !Clear(f)
  {
    if Clear(f) {
      forall s: Bytes, s': Bytes | Encoded(s, f, |s|) == Encoded(s', f, |s'|) ensures s == s' {
        DecodeEncoded(s, f);
        DecodeEncoded(s', f);
      }
    } else {
      var v := VisOf(1, f, 0);
      assert Encoded([1], f, 1) == [] + v;
      PlainText(v, f, |v|);
      assert v[..|v|] == v && [] + v == v && v != [1];
      assert Encoded([1], f, |[1]|) == Encoded(v, f, |v|);
    }
  }
}
