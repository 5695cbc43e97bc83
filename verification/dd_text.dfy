/** The record conversions of dd, as functions of the whole input: conv=block and conv=unblock. */
module DdText {
  import opened Seqs

  type Byte = x: int | 0 <= x < 256

  type Bytes = seq<Byte>

  const NL: Byte := 10
  const SP: Byte := 32

  /** Where the first newline is, or the length. */
  function NewlineAt(s: Bytes): (k: nat)
    ensures k <= |s| && NL !in s[..k] && (k < |s| ==> s[k] == NL)
    ensures forall i :: 0 <= i < k ==> s[i] != NL
  {
    if s == [] || s[0] == NL then 0
    else
      var k := NewlineAt(s[1..]);
      assert s[..k + 1] == [s[0]] + s[1..][..k];
      k + 1
  }

  lemma NewlineIs(s: Bytes, k: nat)
    requires k < |s| && s[k] == NL && forall i :: 0 <= i < k ==> s[i] != NL
    ensures NewlineAt(s) == k
  {
    var j := NewlineAt(s);
  }

  lemma NoNewline(s: Bytes)
    ensures NewlineAt(s) == |s| <==> NL !in s
  {
    assert s[..|s|] == s;
  }

  function Spaces(n: nat): Bytes {
    seq(n, i => SP)
  }

  /** A line as a record of cbs bytes: cut, or padded with spaces. */
  function Fit(line: Bytes, cbs: nat): (r: Bytes)
    ensures |r| == cbs
  {
    if |line| >= cbs then line[..cbs] else line + Spaces(cbs - |line|)
  }

  /** conv=block: every line becomes a record, also a last line that is not terminated. */
  function Block(s: Bytes, cbs: nat): Bytes {
    if s == [] then [] else
      var k := NewlineAt(s);
      Fit(s[..k], cbs) + if k < |s| then Block(s[k + 1..], cbs) else []
  }

  // The same, for input that is still coming in.

  /** What is known to go out: the complete lines, and a line that is long enough already. */
  ghost function BlockFlow(s: Bytes, cbs: nat): Bytes {
    var k := NewlineAt(s);
    if k < |s| then Fit(s[..k], cbs) + BlockFlow(s[k + 1..], cbs)
    else if |s| >= cbs then s[..cbs] else []
  }

  /** The unfinished line, as long as it is shorter than a record. */
  ghost function BlockRest(s: Bytes, cbs: nat): (r: Bytes)
    ensures NL !in r && (cbs > 0 ==> |r| < cbs)
  {
    var k := NewlineAt(s);
    NoNewline(s);
    if k < |s| then BlockRest(s[k + 1..], cbs) else if |s| >= cbs then [] else s
  }

  /** Until a line has filled its record, the input is complete lines and the unfinished one. */
  lemma BlockCut(p: Bytes, cbs: nat) returns (q: Bytes)
    requires cbs > 0 && !BlockTrunc(p, cbs)
    ensures p == q + BlockRest(p, cbs) && Complete(q) && BlockFlow(q, cbs) == BlockFlow(p, cbs)
  {
    var r;
    q, r := Cut(p);
    BlockOn(q, r, cbs);
    BlockNoNewline(r, cbs);
    BlockOn(q, [], cbs);
    assert q + [] == q && BlockFlow([], cbs) == [];
  }

  /** The unfinished line has filled its record; the rest of it is to be dropped. */
  ghost predicate BlockTrunc(s: Bytes, cbs: nat) {
    var k := NewlineAt(s);
    if k < |s| then BlockTrunc(s[k + 1..], cbs) else |s| >= cbs
  }

  /** q consists of complete lines. */
  ghost predicate Complete(q: Bytes) {
    q == [] || q[|q| - 1] == NL
  }

  /** At the end of the input, an unfinished line is a line. */
  lemma {:induction false} BlockEnds(s: Bytes, cbs: nat)
    requires cbs > 0
    ensures Block(s, cbs) == BlockFlow(s, cbs) + if BlockRest(s, cbs) == [] then [] else Fit(BlockRest(s, cbs), cbs)
    ensures BlockTrunc(s, cbs) ==> BlockRest(s, cbs) == []
  {
    var k := NewlineAt(s);
    if k < |s| {
      BlockEnds(s[k + 1..], cbs);
      var rest := BlockRest(s[k + 1..], cbs);
      Assoc(Fit(s[..k], cbs), BlockFlow(s[k + 1..], cbs), if rest == [] then [] else Fit(rest, cbs));
    } else {
      assert s[..k] == s;
    }
  }

  lemma NewlineIn(q: Bytes, r: Bytes)
    requires NewlineAt(q) < |q|
    ensures NewlineAt(q + r) == NewlineAt(q) && (q + r)[..NewlineAt(q)] == q[..NewlineAt(q)]
    ensures (q + r)[NewlineAt(q) + 1..] == q[NewlineAt(q) + 1..] + r
  {
    assert forall i :: 0 <= i < |q| ==> (q + r)[i] == q[i];
    NewlineIs(q + r, NewlineAt(q));
  }

  /** Complete lines may be looked at apart from what follows them. */
  lemma {:induction false} BlockOn(q: Bytes, r: Bytes, cbs: nat)
    requires Complete(q) && cbs > 0
    ensures BlockFlow(q + r, cbs) == BlockFlow(q, cbs) + BlockFlow(r, cbs)
    ensures BlockRest(q + r, cbs) == BlockRest(r, cbs) && (BlockTrunc(q + r, cbs) <==> BlockTrunc(r, cbs))
    ensures BlockRest(q, cbs) == [] && !BlockTrunc(q, cbs)
  {
    if q == [] {
      assert q + r == r;
    } else {
      var k := NewlineAt(q);
      NoNewline(q);
      NewlineIn(q, r);
      BlockOn(q[k + 1..], r, cbs);
      Assoc(Fit(q[..k], cbs), BlockFlow(q[k + 1..], cbs), BlockFlow(r, cbs));
    }
  }

  /** Where the input is cut: complete lines, and an unfinished one. */
  lemma {:induction false} Cut(s: Bytes) returns (q: Bytes, r: Bytes)
    ensures s == q + r && Complete(q) && NL !in r
  {
    var k := NewlineAt(s);
    if k < |s| {
      q, r := Cut(s[k + 1..]);
      assert s == s[..k + 1] + s[k + 1..];
      q := s[..k + 1] + q;
    } else {
      NoNewline(s);
      q, r := [], s;
    }
  }

  lemma BlockNoNewline(r: Bytes, cbs: nat)
    requires NL !in r && cbs > 0
    ensures BlockFlow(r, cbs) == if |r| >= cbs then r[..cbs] else []
    ensures BlockRest(r, cbs) == (if |r| >= cbs then [] else r) && (BlockTrunc(r, cbs) <==> |r| >= cbs)
  {
    NoNewline(r);
  }

  /** Bytes of a line that has filled its record are dropped. */
  lemma BlockDrops(p: Bytes, d: Bytes, cbs: nat)
    requires cbs > 0 && BlockTrunc(p, cbs) && NL !in d
    ensures BlockFlow(p + d, cbs) == BlockFlow(p, cbs) && BlockTrunc(p + d, cbs) && BlockRest(p + d, cbs) == []
  {
    var q, r := Cut(p);
    BlockOn(q, r, cbs);
    BlockNoNewline(r, cbs);
    Assoc(q, r, d);
    BlockOn(q, r + d, cbs);
    BlockNoNewline(r + d, cbs);
    assert r[..cbs] == (r + d)[..cbs];
  }

  /** The line that has filled its record ends. */
  lemma BlockResumes(p: Bytes, d: Bytes, cbs: nat)
    requires cbs > 0 && BlockTrunc(p, cbs) && NL !in d
    ensures BlockFlow(p + d + [NL], cbs) == BlockFlow(p, cbs) && Complete(p + d + [NL])
  {
    hide *;
    var q, r := Cut(p);
    BlockOn(q, r, cbs);
    BlockNoNewline(r, cbs);
    Regroup(q, r, d, [NL]);
    CompleteEnd(p + d);
    var line := r + d;
    BlockOn(q, line + [NL], cbs);
    BlockLine(line, cbs);
    SameFit(r, d, cbs);
  }

  lemma CompleteEnd(s: Bytes)
    ensures Complete(s + [NL])
  {
  }

  lemma SameFit(r: Bytes, d: Bytes, cbs: nat)
    requires |r| >= cbs
    ensures Fit(r + d, cbs) == r[..cbs]
  {
  }

  lemma Regroup(q: Bytes, r: Bytes, d: Bytes, e: Bytes)
    ensures q + r + d + e == q + (r + d + e)
  {
  }

  /** One complete line. */
  lemma BlockLine(line: Bytes, cbs: nat)
    requires NL !in line
    ensures BlockFlow(line + [NL], cbs) == Fit(line, cbs)
  {
    var s := line + [NL];
    assert forall i :: 0 <= i < |line| ==> s[i] == line[i] && line[i] in line;
    assert s[..|line|] == line && s[|line| + 1..] == [];
    NewlineIs(s, |line|);
    assert BlockFlow([], cbs) == [];
  }

  // One record of conv=block, behind complete lines q.

  lemma StepLine(q: Bytes, line: Bytes, t: Bytes, cbs: nat)
    requires cbs > 0 && Complete(q) && NL !in line
    ensures Complete(q + line + [NL]) && BlockFlow(q + line + [NL], cbs) == BlockFlow(q, cbs) + Fit(line, cbs)
    ensures q + (line + [NL] + t) == q + line + [NL] + t
  {
    hide *;
    CompleteEnd(q + line);
    Assoc(q, line, [NL]);
    BlockOn(q, line + [NL], cbs);
    BlockLine(line, cbs);
    Regroup(q, line, [NL], t);
  }

  lemma StepCut(q: Bytes, line: Bytes, cbs: nat)
    requires cbs > 0 && Complete(q) && NL !in line
    ensures BlockFlow(q + line, cbs) == BlockFlow(q, cbs) + (if |line| >= cbs then line[..cbs] else [])
    ensures (BlockTrunc(q + line, cbs) <==> |line| >= cbs) && BlockRest(q + line, cbs) == if |line| >= cbs then [] else line
  {
    BlockOn(q, line, cbs);
    BlockNoNewline(line, cbs);
  }

  // conv=unblock

  /** A record without its trailing spaces. */
  function Strip(rec: Bytes): (r: Bytes)
    ensures |r| <= |rec| && r == rec[..|r|] && (r == [] || r[|r| - 1] != SP)
    ensures forall i :: |r| <= i < |rec| ==> rec[i] == SP
  {
    if rec == [] || rec[|rec| - 1] != SP then rec else Strip(rec[..|rec| - 1])
  }

  /** conv=unblock: every record becomes a line, also a short one at the end. */
  function Unblock(s: Bytes, cbs: nat): Bytes
    requires cbs > 0
  {
    if s == [] then []
    else if |s| < cbs then Strip(s) + [NL]
    else Strip(s[..cbs]) + [NL] + Unblock(s[cbs..], cbs)
  }

  /** The lines of the full records, and the bytes of an unfinished one. */
  ghost function UnblockFlow(s: Bytes, cbs: nat): Bytes
    requires cbs > 0
  {
    if |s| < cbs then [] else Strip(s[..cbs]) + [NL] + UnblockFlow(s[cbs..], cbs)
  }

  ghost function UnblockRest(s: Bytes, cbs: nat): (r: Bytes)
    requires cbs > 0
    ensures |r| < cbs
  {
    if |s| < cbs then s else UnblockRest(s[cbs..], cbs)
  }

  /** q consists of full records. */
  ghost predicate Records(q: Bytes, cbs: nat)
    requires cbs > 0
  {
    q == [] || (|q| >= cbs && Records(q[cbs..], cbs))
  }

  lemma {:induction false} UnblockEnds(s: Bytes, cbs: nat)
    requires cbs > 0
    ensures Unblock(s, cbs) == UnblockFlow(s, cbs) + if UnblockRest(s, cbs) == [] then [] else Strip(UnblockRest(s, cbs)) + [NL]
  {
    if |s| >= cbs {
      UnblockEnds(s[cbs..], cbs);
      var rest := UnblockRest(s[cbs..], cbs);
      Assoc(Strip(s[..cbs]) + [NL], UnblockFlow(s[cbs..], cbs), if rest == [] then [] else Strip(rest) + [NL]);
    }
  }

  lemma After(q: Bytes, r: Bytes, n: nat)
    requires n <= |q|
    ensures (q + r)[n..] == q[n..] + r && (q + r)[..n] == q[..n]
  {
  }

  lemma Halves(q: Bytes, r: Bytes)
    ensures (q + r)[|q|..] == r && (q + r)[..|q|] == q
  {
  }

  lemma Whole(s: Bytes, n: nat)
    requires n <= |s|
    ensures s == s[..n] + s[n..]
    ensures n < |s| ==> s == s[..n] + [s[n]] + s[n + 1..]
  {
  }

  lemma {:induction false} UnblockOn(q: Bytes, r: Bytes, cbs: nat)
    requires cbs > 0 && Records(q, cbs)
    ensures UnblockFlow(q + r, cbs) == UnblockFlow(q, cbs) + UnblockFlow(r, cbs)
    ensures UnblockRest(q + r, cbs) == UnblockRest(r, cbs) && UnblockRest(q, cbs) == []
  {
    if q == [] {
      assert q + r == r;
    } else {
      UnblockOn(q[cbs..], r, cbs);
      After(q, r, cbs);
      Assoc(Strip(q[..cbs]) + [NL], UnblockFlow(q[cbs..], cbs), UnblockFlow(r, cbs));
    }
  }

  lemma {:induction false} UnblockCut(p: Bytes, cbs: nat) returns (q: Bytes)
    requires cbs > 0
    ensures p == q + UnblockRest(p, cbs) && Records(q, cbs) && UnblockFlow(q, cbs) == UnblockFlow(p, cbs)
  {
    if |p| < cbs {
      q := [];
    } else {
      var q' := UnblockCut(p[cbs..], cbs);
      q := p[..cbs] + q';
      Halves(p[..cbs], q');
      Whole(p, cbs);
      Assoc(p[..cbs], q', UnblockRest(p, cbs));
    }
  }

  /** One record of conv=unblock, behind full records q. */
  lemma UnblockStep(q: Bytes, rec: Bytes, t: Bytes, cbs: nat)
    requires cbs > 0 && Records(q, cbs) && |rec| == cbs
    ensures Records(q + rec, cbs) && UnblockFlow(q + rec, cbs) == UnblockFlow(q, cbs) + (Strip(rec) + [NL])
    ensures q + (rec + t) == (q + rec) + t
  {
    UnblockOn(q, rec, cbs);
    OneRecord(rec, cbs);
    RecordsOn(q, rec, cbs);
  }

  lemma OneRecord(rec: Bytes, cbs: nat)
    requires cbs > 0 && |rec| == cbs
    ensures Records(rec, cbs) && UnblockFlow(rec, cbs) == Strip(rec) + [NL]
  {
    assert rec[..cbs] == rec && rec[cbs..] == [];
    assert UnblockFlow([], cbs) == [] && Records([], cbs);
  }

  lemma {:induction false} RecordsOn(q: Bytes, r: Bytes, cbs: nat)
    requires cbs > 0 && Records(q, cbs) && Records(r, cbs)
    ensures Records(q + r, cbs)
  {
    if q == [] {
      assert q + r == r;
    } else {
      After(q, r, cbs);
      RecordsOn(q[cbs..], r, cbs);
    }
  }

  // Round trips.

  /** Every line is terminated, is no longer than a record and does not end in a space. */
  ghost predicate Neat(s: Bytes, cbs: nat) {
    s == [] ||
    var k := NewlineAt(s);
    k < |s| && k <= cbs && (k > 0 ==> s[k - 1] != SP) && Neat(s[k + 1..], cbs)
  }

  lemma StripFit(line: Bytes, cbs: nat)
    requires |line| <= cbs && (line != [] ==> line[|line| - 1] != SP)
    ensures Strip(Fit(line, cbs)) == line
  {
    var f := Fit(line, cbs);
    var r := Strip(f);
    assert f[..|line|] == line;
    assert forall i :: |line| <= i < cbs ==> f[i] == SP;
    assert r != [] ==> r[|r| - 1] == f[|r| - 1];
    assert line != [] ==> f[|line| - 1] == line[|line| - 1];
  }

  lemma FitStrip(rec: Bytes)
    ensures Fit(Strip(rec), |rec|) == rec
  {
    hide Strip;
    var r := Strip(rec);
    forall i | 0 <= i < |rec| ensures Fit(r, |rec|)[i] == rec[i] {
      assert i < |r| ==> r[i] == rec[i];
    }
  }

  lemma {:induction false} BlockIsRecords(s: Bytes, cbs: nat)
    requires cbs > 0
    ensures Records(Block(s, cbs), cbs) && NL !in Block(s, cbs)
  {
    if s != [] {
      var k := NewlineAt(s);
      var f, b := Fit(s[..k], cbs), if k < |s| then Block(s[k + 1..], cbs) else [];
      if k < |s| {
        BlockIsRecords(s[k + 1..], cbs);
      }
      assert (f + b)[cbs..] == b;
    }
  }

  lemma {:induction false} UnblockIsNeat(s: Bytes, cbs: nat)
    requires cbs > 0 && NL !in s
    ensures Neat(Unblock(s, cbs), cbs)
  {
    if s != [] {
      var n := if |s| < cbs then |s| else cbs;
      var line, u := Strip(s[..n]), if |s| < cbs then [] else Unblock(s[n..], cbs);
      assert s[..n] == if |s| < cbs then s else s[..cbs];
      if |s| >= cbs {
        UnblockIsNeat(s[cbs..], cbs);
      }
      assert Unblock(s, cbs) == line + [NL] + u;
      hide Unblock, Strip;
      OneLine(line, u);
    }
  }

  lemma OneLine(line: Bytes, u: Bytes)
    requires NL !in line
    ensures var s := line + [NL] + u; NewlineAt(s) == |line| && s[..|line|] == line && s[|line| + 1..] == u
  {
    var s := line + [NL] + u;
    assert forall i :: 0 <= i < |line| ==> s[i] == line[i] && line[i] in line;
    NewlineIs(s, |line|);
  }

  /** unblock undoes block exactly on the texts whose lines are neat. */
  lemma {:induction false} UnblockOfBlock(s: Bytes, cbs: nat)
    requires cbs > 0
    ensures Unblock(Block(s, cbs), cbs) == s <==> Neat(s, cbs)
  {
    BlockIsRecords(s, cbs);
    UnblockIsNeat(Block(s, cbs), cbs);
    if Neat(s, cbs) {
      NeatTrip(s, cbs);
    }
  }

  lemma {:induction false} NeatTrip(s: Bytes, cbs: nat)
    requires cbs > 0 && Neat(s, cbs)
    ensures Unblock(Block(s, cbs), cbs) == s
  {
    if s != [] {
      var k := NewlineAt(s);
      NeatTrip(s[k + 1..], cbs);
      var f, b := Fit(s[..k], cbs), Block(s[k + 1..], cbs);
      assert Block(s, cbs) == f + b;
      hide Block, Fit, Neat;
      Halves(f, b);
      assert Unblock(f + b, cbs) == Strip(f) + [NL] + Unblock(b, cbs);
      StripFit(s[..k], cbs);
      Whole(s, k);
    }
  }

  /** block undoes unblock exactly on full records without newlines. */
  lemma {:induction false} BlockOfUnblock(s: Bytes, cbs: nat)
    requires cbs > 0
    ensures Block(Unblock(s, cbs), cbs) == s <==> Records(s, cbs) && NL !in s
  {
    BlockIsRecords(Unblock(s, cbs), cbs);
    if Records(s, cbs) && NL !in s {
      RecordsTrip(s, cbs);
    }
  }

  lemma {:induction false} RecordsTrip(s: Bytes, cbs: nat)
    requires cbs > 0 && Records(s, cbs) && NL !in s
    ensures Block(Unblock(s, cbs), cbs) == s
  {
    if s != [] {
      RecordsTrip(s[cbs..], cbs);
      var line, u := Strip(s[..cbs]), Unblock(s[cbs..], cbs);
      assert Unblock(s, cbs) == line + [NL] + u;
      hide Unblock, Fit, Records;
      FitStrip(s[..cbs]);
      OneLine(line, u);
      assert Block(line + [NL] + u, cbs) == Fit(line, cbs) + Block(u, cbs);
      Whole(s, cbs);
    }
  }

  /** Records is what the length says. */
  lemma {:induction false} RecordsLength(s: Bytes, cbs: nat)
    requires cbs > 0
    ensures Records(s, cbs) <==> |s| % cbs == 0
  {
    if |s| >= cbs {
      RecordsLength(s[cbs..], cbs);
      assert |s| % cbs == (|s| - cbs) % cbs by { ModLess(|s|, cbs); }
    }
  }

  lemma ModLess(n: nat, m: nat)
    requires 0 < m <= n
    ensures n % m == (n - m) % m
  {
    var x := (n - m) / m + 1 - n / m;
    assert n % m - (n - m) % m == m * x;
    Product(m, x);
  }

  lemma Product(m: nat, x: int)
    ensures x > 0 ==> m * x >= m
    ensures x < 0 ==> m * x + m <= 0
    ensures x == 0 ==> m * x == 0
  {
  }

  /** n records of nothing but spaces. */
  function Blanks(n: nat, cbs: nat): Bytes {
    if n == 0 then [] else Spaces(cbs) + Blanks(n - 1, cbs)
  }

  lemma {:induction false} BlanksFlow(n: nat, cbs: nat)
    requires cbs > 0
    ensures Records(Blanks(n, cbs), cbs) && |UnblockFlow(Blanks(n, cbs), cbs)| == n
  {
    if n > 0 {
      BlanksFlow(n - 1, cbs);
      var s := Blanks(n, cbs);
      assert s[..cbs] == Spaces(cbs) && s[cbs..] == Blanks(n - 1, cbs);
      assert Strip(Spaces(cbs)) == [];
    }
  }

  /** The output buffer of unblock has not a byte too many: after obs - 1 records of spaces there is
      less than a block to write, and one full record more makes it obs + cbs bytes. */
  lemma UnblockBrim(obs: nat, cbs: nat, rec: Bytes)
    requires obs > 0 && cbs > 0 && |rec| == cbs && rec[cbs - 1] != SP
    ensures var s := Blanks(obs - 1, cbs);
      |UnblockFlow(s, cbs)| == obs - 1 && |UnblockFlow(s + rec, cbs)| == obs + cbs
  {
    BlanksFlow(obs - 1, cbs);
    UnblockStep(Blanks(obs - 1, cbs), rec, [], cbs);
    assert Strip(rec) == rec;
  }

  // The two conversions, byte by byte

  /** Lines, each with its newline. */
  function Terminated(lines: seq<Bytes>): Bytes {
    if lines == [] then [] else lines[0] + [10] + Terminated(lines[1..])
  }

  /** rec has the bytes of the line, as far as there is room, and then spaces. */
  ghost predicate IsRecord(rec: Bytes, line: Bytes, cbs: nat) {
    |rec| == cbs && forall j :: 0 <= j < cbs ==> rec[j] == if j < |line| then line[j] else 32
  }

  /** out is one record after the other, of the lines. */
  ghost predicate AreRecords(out: Bytes, lines: seq<Bytes>, cbs: nat) {
    if lines == [] then out == []
    else |out| >= cbs && IsRecord(out[..cbs], lines[0], cbs) && AreRecords(out[cbs..], lines[1..], cbs)
  }

  function AllLines(lines: seq<Bytes>, last: Bytes): seq<Bytes> {
    if last == [] then lines else lines + [last]
  }

  /** s is lines, and perhaps a last one that is not terminated; out has a record for each. */
  ghost predicate IsBlocked(s: Bytes, out: Bytes, cbs: nat) {
    exists lines, last :: (forall i :: 0 <= i < |lines| ==> 10 !in lines[i]) && 10 !in last && s == Terminated(lines) + last
      && AreRecords(out, AllLines(lines, last), cbs)
  }

  lemma FitIsRecord(line: Bytes, cbs: nat)
    ensures IsRecord(Fit(line, cbs), line, cbs)
  {
  }

  lemma OneMoreRecord(rec: Bytes, out: Bytes, line: Bytes, lines: seq<Bytes>, cbs: nat)
    requires IsRecord(rec, line, cbs) && AreRecords(out, lines, cbs)
    ensures AreRecords(rec + out, [line] + lines, cbs)
  {
    assert |rec| == cbs && (rec + out)[..cbs] == rec && (rec + out)[cbs..] == out && ([line] + lines)[1..] == lines;
  }

  lemma OneMoreLine(line: Bytes, lines: seq<Bytes>, last: Bytes)
    ensures Terminated([line] + lines) + last == line + [10] + (Terminated(lines) + last)
  {
    assert ([line] + lines)[1..] == lines;
    Assoc(line + [10], Terminated(lines), last);
  }

  lemma {:induction false} BlockLines(s: Bytes, cbs: nat) returns (lines: seq<Bytes>, last: Bytes)
    ensures (forall i :: 0 <= i < |lines| ==> 10 !in lines[i]) && 10 !in last && s == Terminated(lines) + last
    ensures AreRecords(Block(s, cbs), AllLines(lines, last), cbs)
  {
    var k := NewlineAt(s);
    FitIsRecord(s[..k], cbs);
    if s == [] {
      lines, last := [], [];
    } else if k == |s| {
      lines, last := [], s;
      NoNewline(s);
      assert s[..k] == s && Fit(s, cbs) + [] == Fit(s, cbs);
      hide IsRecord, Fit;
      OneMoreRecord(Fit(s, cbs), [], s, [], cbs);
      assert [s] + [] == [] + [s];
    } else {
      hide IsRecord, Fit, AreRecords, Terminated;
      var rest;
      rest, last := BlockLines(s[k + 1..], cbs);
      lines := [s[..k]] + rest;
      OneMoreRecord(Fit(s[..k], cbs), Block(s[k + 1..], cbs), s[..k], AllLines(rest, last), cbs);
      OneMoreLine(s[..k], rest, last);
      Assoc([s[..k]], rest, [last]);
      Whole(s, k);
      Assoc(s[..k], [10], s[k + 1..]);
    }
  }

  /** conv=block, byte by byte. */
  lemma BlockIsBlocked(s: Bytes, cbs: nat)
    ensures IsBlocked(s, Block(s, cbs), cbs)
  {
    var lines, last := BlockLines(s, cbs);
    hide Block, AreRecords, Terminated;
  }

  /** out is the record without the spaces at its end, and a newline. */
  ghost predicate IsLine(out: Bytes, rec: Bytes) {
    && 0 < |out| <= |rec| + 1 && out[..|out| - 1] == rec[..|out| - 1] && out[|out| - 1] == 10
    && (forall j :: |out| - 1 <= j < |rec| ==> rec[j] == 32) && (|out| > 1 ==> out[|out| - 2] != 32)
  }

  /** out is a line for every record of s; the last record may be short. */
  ghost predicate IsUnblocked(s: Bytes, out: Bytes, cbs: nat)
    requires cbs > 0
    decreases |s|
  {
    if s == [] then out == []
    else
      var n := if |s| < cbs then |s| else cbs;
      exists k :: 0 <= k <= |out| && IsLine(out[..k], s[..n]) && IsUnblocked(s[n..], out[k..], cbs)
  }

  lemma StripIsLine(rec: Bytes)
    ensures IsLine(Strip(rec) + [NL], rec)
  {
    hide Strip;
    assert (Strip(rec) + [NL])[..|Strip(rec)|] == Strip(rec);
  }

  /** conv=unblock, byte by byte. */
  lemma {:induction false} UnblockIsUnblocked(s: Bytes, cbs: nat)
    requires cbs > 0
    ensures IsUnblocked(s, Unblock(s, cbs), cbs)
    decreases |s|
  {
    if s != [] {
      var n := if |s| < cbs then |s| else cbs;
      var line, more := Strip(s[..n]) + [NL], if |s| < cbs then [] else Unblock(s[n..], cbs);
      StripIsLine(s[..n]);
      assert s[..n] == if |s| < cbs then s else s[..cbs];
      hide Strip, IsLine;
      Halves(line, more);
      assert line + [] == line;
      assert Unblock(s, cbs) == line + more;
      if |s| >= cbs {
        UnblockIsUnblocked(s[n..], cbs);
      } else {
        assert s[n..] == [];
      }
      hide Unblock;
      var out := Unblock(s, cbs);
      assert IsLine(out[..|line|], s[..n]) && IsUnblocked(s[n..], out[|line|..], cbs);
    }
  }
}
