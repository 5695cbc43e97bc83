/** src/bin/dd/dd.c: the buffers of dd, its writes, and the three conversions that fill them. */
module DdIo {
  import opened DdText
  import opened Seqs

  method Memmove(dst: array<Byte>, d: nat, src: array<Byte>, s: nat, n: nat)
    requires d + n <= dst.Length && s + n <= src.Length
    modifies dst
    ensures dst[d..d + n] == old(src[s..s + n])
    ensures dst[..d] == old(dst[..d]) && dst[d + n..] == old(dst[d + n..])
  {
    forall k | 0 <= k < n {
      dst[d + k] := src[s + k];
    }
  }

  method Memset(dst: array<Byte>, d: nat, b: Byte, n: nat)
    requires d + n <= dst.Length
    modifies dst
    ensures dst[d..d + n] == seq(n, i => b)
    ensures dst[..d] == old(dst[..d]) && dst[d + n..] == old(dst[d + n..])
  {
    forall k | d <= k < d + n {
      dst[k] := b;
    }
  }

  lemma Sliced(a: array<Byte>, i: nat, k: nat, e: nat)
    requires i <= k < e <= a.Length
    ensures a[i..e] == a[i..k] + [a[k]] + a[k + 1..e]
  {
  }

  lemma NoNewlines(a: array<Byte>, i: nat, k: nat, e: nat)
    requires i <= k <= e <= a.Length && NL !in a[i..k] && NL !in a[k..e]
    ensures NL !in a[i..e]
  {
    assert a[i..e] == a[i..k] + a[k..e];
  }

  /** A line that ends at k, in the input buffer from i to e. */
  lemma LineInBuffer(a: array<Byte>, i: nat, k: nat, e: nat, q: Bytes, s: Bytes, cbs: nat)
    requires cbs > 0 && i <= k < e <= a.Length && Complete(q) && q + a[i..e] == s && NL !in a[i..k] && a[k] == NL
    ensures var q' := q + a[i..k] + [NL];
      Complete(q') && q' + a[k + 1..e] == s && BlockFlow(q', cbs) == BlockFlow(q, cbs) + Fit(a[i..k], cbs)
    ensures i + cbs <= k ==> Fit(a[i..k], cbs) == a[i..i + cbs]
  {
    Sliced(a, i, k, e);
    StepLine(q, a[i..k], a[k + 1..e], cbs);
    assert i + cbs <= k ==> a[i..k][..cbs] == a[i..i + cbs];
  }

  /** No line ends in the input buffer from i to e. */
  lemma NoLineInBuffer(a: array<Byte>, i: nat, e: nat, q: Bytes, s: Bytes, cbs: nat)
    requires cbs > 0 && i <= e <= a.Length && Complete(q) && q + a[i..e] == s && NL !in a[i..e]
    ensures BlockTrunc(s, cbs) <==> i + cbs <= e
    ensures i + cbs <= e ==> BlockFlow(s, cbs) == BlockFlow(q, cbs) + a[i..i + cbs] && BlockRest(s, cbs) == []
    ensures e < i + cbs ==> BlockFlow(s, cbs) == BlockFlow(q, cbs) && BlockRest(s, cbs) == a[i..e]
  {
    StepCut(q, a[i..e], cbs);
    assert i + cbs <= e ==> a[i..e][..cbs] == a[i..i + cbs];
  }

  /** A line that was being dropped ends at k. */
  lemma ResumeInBuffer(a: array<Byte>, k: nat, e: nat, p: Bytes, c: Bytes, cbs: nat) returns (q: Bytes)
    requires cbs > 0 && k < e <= a.Length && c == a[..e] && NL !in a[..k] && a[k] == NL && BlockTrunc(p, cbs)
    ensures q + a[k + 1..e] == p + c && Complete(q) && BlockFlow(q, cbs) == BlockFlow(p, cbs)
  {
    hide BlockFlow, BlockTrunc;
    Sliced(a, 0, k, e);
    assert a[0..k] == a[..k] && a[0..e] == a[..e];
    BlockResumes(p, a[..k], cbs);
    q := p + a[..k] + [NL];
    Regroup(p, a[..k], [NL], a[k + 1..e]);
  }

  datatype Conv = Def | ToBlocks | ToLines

  /** A character table; no table leaves bytes alone. */
  type Table = t: seq<Byte> | |t| == 0 || |t| == 256 witness []

  function Translate(t: Table, s: Bytes): (r: Bytes)
    ensures |r| == |s|
  {
    if t == [] then s else seq(|s|, i requires 0 <= i < |s| => t[s[i]])
  }

  function Max(a: nat, b: nat): nat {
    if a > b then a else b
  }

  class Dd {
    const cfunc: Conv
    const cbsz: nat
    const ctab: Table
    // in
    const idb: array<Byte>
    const idbsz: nat
    var idbp: nat
    var idbcnt: nat
    var idbrcnt: nat
    // out
    const odb: array<Byte>
    const odbsz: nat
    var odbp: nat
    var odbcnt: nat
    // the static of block
    var intrunc: bool
    // st.bytes, and what the output file has got
    var bytes: nat
    var written: Bytes

    /** The buffers as setup allocates them. */
    ghost predicate Sized() {
      && idbsz > 0 && odbsz > 0
      && (cfunc == Def ==> idb == odb && idb.Length == odbsz + idbsz - 1)
      && (cfunc != Def ==> idb != odb && cbsz > 0 && idb.Length == Max(idbsz, cbsz) + cbsz && odb.Length == odbsz + cbsz)
      && (cfunc != Def ==> ctab == [])
    }

    constructor (cfunc: Conv, ibs: nat, obs: nat, cbs: nat, ctab: Table)
      requires ibs > 0 && obs > 0 && (cfunc != Def ==> cbs > 0 && ctab == [])
      ensures Sized() && this.cfunc == cfunc && idbsz == ibs && odbsz == obs && cbsz == cbs && this.ctab == ctab
      ensures idbp == idbcnt == odbp == odbcnt == 0 && !intrunc && bytes == 0 && written == []
      ensures fresh(idb) && fresh(odb)
    {
      this.cfunc, cbsz, this.ctab, idbsz, odbsz := cfunc, cbs, ctab, ibs, obs;
      if cfunc == Def {
        var b := new Byte[obs + ibs - 1];
        idb, odb := b, b;
      } else {
        idb := new Byte[Max(ibs, cbs) + cbs];
        odb := new Byte[obs + cbs];
      }
      idbp, idbcnt, idbrcnt, odbp, odbcnt, intrunc, bytes, written := 0, 0, 0, 0, 0, false, 0, [];
    }

    /** Everything that has left the conversion: what is written, and what is still buffered. */
    ghost function Sent(): Bytes
      requires odbcnt <= odb.Length
      reads this`odbcnt, this`written, odb
    {
      written + odb[..odbcnt]
    }

    /** The inner loop of dd_out: n bytes from outp on, in as many writes as it takes. Each write
        takes any number of them, or none if a signal interrupts it, which happens finitely often. */
    method WriteOut(outp0: nat, n: nat) returns (outp: nat)
      requires n > 0 && outp0 + n <= odb.Length && bytes == |written|
      modifies this`bytes, this`written
      ensures outp == outp0 + n && written == old(written) + odb[outp0..outp] && bytes == |written|
    {
      outp := outp0;
      var cnt := n;
      var signals: nat := *;
      while true
        invariant 0 < cnt <= n && outp == outp0 + (n - cnt)
        invariant written == old(written) + odb[outp0..outp] && bytes == |written|
        decreases cnt, signals
      {
        var nw: nat :| nw <= cnt && (nw > 0 || signals > 0);
        if nw == 0 {
          signals := signals - 1;
        }
        assert odb[outp0..outp + nw] == odb[outp0..outp] + odb[outp..outp + nw];
        written := written + odb[outp..outp + nw];
        outp := outp + nw;
        bytes := bytes + nw;
        if nw == n {
          break;
        }
        if nw == cnt {
          break;
        }
        cnt := cnt - nw;
      }
    }

    /** The loops of dd_out: one block after the other, the first as large as n0. */
    method WriteBlocks(n0: nat, force: bool) returns (outp: nat)
      requires odbsz > 0 && 0 < n0 <= odbcnt <= odb.Length && bytes == |written|
      requires n0 == if force then odbcnt else odbsz
      modifies this`odbcnt, this`bytes, this`written
      ensures outp + odbcnt == old(odbcnt) && odbcnt < odbsz && (force ==> odbcnt == 0)
      ensures written == old(written) + odb[..outp] && bytes == |written|
    {
      outp := 0;
      var n := n0;
      ghost var cnt0 := odbcnt;
      while true
        invariant 0 < n <= odbcnt && outp + odbcnt == cnt0 && (!force ==> n == odbsz) && (force ==> n == odbcnt)
        invariant written == old(written) + odb[..outp] && bytes == |written|
        decreases odbcnt
      {
        ghost var outp0 := outp;
        outp := WriteOut(outp, n);
        assert odb[..outp] == odb[..outp0] + odb[outp0..outp];
        odbcnt := odbcnt - n;
        if odbcnt < odbsz {
          break;
        }
        n := odbsz;
      }
    }

    /** What is left of the output moves to the front of its buffer. */
    method Reassemble()
      requires odbcnt <= odb.Length && (odbcnt > 0 ==> odbcnt <= odbp <= odb.Length)
      modifies this`odbp, odb
      ensures odbp == odbcnt && (odbcnt > 0 ==> odb[..odbcnt] == old(odb[odbp - odbcnt..odbp]))
    {
      if odbcnt > 0 {
        Memmove(odb, 0, odb, odbp - odbcnt, odbcnt);
        assert odb[0..0 + odbcnt] == odb[..odbcnt];
      }
      odbp := odbcnt;
    }

    /** dd_out: nothing is lost between the file and the buffer. */
    method DdOut(force: bool)
      requires odbsz > 0 && odbcnt <= odb.Length && bytes == |written|
      requires if force then odbcnt > 0 else odbcnt >= odbsz && odbp == odbcnt
      modifies this`odbp, this`odbcnt, this`bytes, this`written, odb
      ensures odbcnt <= old(odbcnt) && Sent() == old(Sent()) && bytes == |written| && odbp == odbcnt < odbsz
      ensures force ==> odbcnt == 0
    {
      ghost var cnt0, buf := odbcnt, odb[..odbcnt];
      var outp := WriteBlocks(if force then odbcnt else odbsz, force);
      ghost var rest := odb[outp..cnt0];
      assert buf == odb[..outp] + rest;
      Assoc(old(written), odb[..outp], rest);
      Reassemble();
      assert odb[..odbcnt] == rest;
    }

    /** What has gone out, to the file or to less than a block in the buffer. */
    ghost predicate Output(flow: Bytes)
      reads this`odbp, this`odbcnt, this`bytes, this`written, odb
    {
      bytes == |written| && odbp == odbcnt < odbsz && odbcnt <= odb.Length && Sent() == flow
    }

    /** Between reads, the input buffer ends where its count says. */
    ghost predicate Kept()
      reads this`idbp, this`idbcnt
    {
      Sized() && idbp == idbcnt <= idb.Length
    }

    /** The state of dd when it has read p and converted it. It is a function of p alone, however p
        was cut into reads. */
    ghost predicate At(p: Bytes)
      reads this, idb, odb
    {
      && Kept()
      && match cfunc
         case Def => idbcnt == odbcnt && Output(Translate(ctab, p))
         case ToBlocks => Output(BlockFlow(p, cbsz)) && intrunc == BlockTrunc(p, cbsz) && idb[..idbcnt] == BlockRest(p, cbsz)
         case ToLines => Output(UnblockFlow(p, cbsz)) && idb[..idbcnt] == UnblockRest(p, cbsz)
    }

    /** The state when c has been read on top of p, but not yet converted. */
    ghost predicate Loaded(p: Bytes, c: Bytes)
      reads this, idb, odb
    {
      && Kept() && idbrcnt == |c| <= idbcnt
      && match cfunc
         case Def => idbcnt == odbcnt + |c| && Output(Translate(ctab, p)) && idb[odbcnt..idbcnt] == c
         case ToBlocks => Output(BlockFlow(p, cbsz)) && intrunc == BlockTrunc(p, cbsz) && idb[..idbcnt] == BlockRest(p, cbsz) + c
         case ToLines => Output(UnblockFlow(p, cbsz)) && idb[..idbcnt] == UnblockRest(p, cbsz) + c
    }

    method Arrive(c: Bytes)
      requires idbp == idbcnt && idbcnt + |c| <= idb.Length
      modifies idb
      ensures idb[..idbcnt] == old(idb[..idbcnt]) && idb[..idbcnt + |c|] == old(idb[..idbcnt]) + c && idb[idbcnt..idbcnt + |c|] == c
    {
      forall k | 0 <= k < |c| {
        idb[idbp + k] := c[k];
      }
    }

    /** The read of dd_in: c arrives behind what is in the input buffer, and there is room. */
    method Read(c: Bytes, ghost p: Bytes)
      requires At(p) && 0 < |c| <= idbsz
      modifies this`idbp, this`idbcnt, this`idbrcnt, idb
      ensures Loaded(p, c)
    {
      hide BlockFlow, BlockTrunc, BlockRest, UnblockFlow, UnblockRest, Translate;
      Arrive(c);
      idbrcnt := |c|;
      idbcnt := idbcnt + idbrcnt;
      idbp := idbp + idbrcnt;
    }

    /** The loop of def over the bytes that have just come in. */
    method TranslateLast(ghost front: Bytes, ghost c: Bytes)
      requires idbrcnt == |c| && |front| + |c| == idbp <= idb.Length && ctab != []
      requires idb[..|front|] == front && idb[|front|..idbp] == c
      modifies idb
      ensures idb[..idbp] == front + Translate(ctab, c)
    {
      var cnt := idbrcnt;
      var inp := idbp - cnt;
      ghost var was := idb[..];
      assert forall k :: 0 <= k < |front| ==> was[k] == idb[..|front|][k];
      assert forall k :: |front| <= k < idbp ==> was[k] == idb[|front|..idbp][k - |front|];
      while cnt > 0
        invariant 0 <= cnt && inp + cnt == idbp && |front| <= inp
        invariant forall k :: 0 <= k < |front| || inp <= k < idbp ==> idb[k] == was[k]
        invariant forall k :: |front| <= k < inp ==> idb[k] == ctab[was[k]]
      {
        cnt := cnt - 1;
        idb[inp] := ctab[idb[inp]];
        inp := inp + 1;
      }
    }

    lemma TranslateOn(out: Bytes, front: Bytes, p: Bytes, c: Bytes)
      requires out + front == Translate(ctab, p)
      ensures out + (front + Translate(ctab, c)) == Translate(ctab, p + c)
    {
      Assoc(out, front, Translate(ctab, c));
      assert Translate(ctab, p) + Translate(ctab, c) == Translate(ctab, p + c);
    }

    lemma LoadedSays(p: Bytes, c: Bytes)
      requires cfunc == Def && Loaded(p, c)
      ensures idb == odb && odbcnt + |c| == idbcnt == idbp <= idb.Length && idbrcnt == |c| && bytes == |written|
      ensures written + odb[..odbcnt] == Translate(ctab, p) && idb[odbcnt..idbcnt] == c
    {
    }

    /** def, but for the write: what has just come in is translated, once. */
    method TakeIn(ghost p: Bytes, ghost c: Bytes)
      requires cfunc == Def && Loaded(p, c)
      modifies this`odbp, this`odbcnt, idb
      ensures odbp == odbcnt == idbcnt && bytes == |written| && Sent() == Translate(ctab, p + c)
    {
      hide Translate, Loaded;
      LoadedSays(p, c);
      ghost var front := odb[..odbcnt];
      TranslateOn(written, front, p, c);
      if ctab != [] {
        TranslateLast(front, c);
      } else {
        NoTable(c);
        assert idb[..idbcnt] == front + c;
      }
      odbp := idbp;
      odbcnt := idbcnt;
    }

    lemma NoTable(c: Bytes)
      requires ctab == []
      ensures Translate(ctab, c) == c
    {
    }

    /** What has been put out and what is pending, byte by byte. */
    lemma DefSays(s: Bytes)
      requires cfunc == Def && At(s)
      ensures odbp <= odb.Length && var out := written + odb[..odbp];
        |out| == |s| && forall i :: 0 <= i < |s| ==> out[i] == if ctab == [] then s[i] else ctab[s[i]]
    {
    }

    /** def */
    method DoDef(ghost p: Bytes, ghost c: Bytes)
      requires cfunc == Def && Loaded(p, c)
      modifies this`idbp, this`idbcnt, this`odbp, this`odbcnt, this`bytes, this`written, idb
      ensures At(p + c)
      ensures odbp <= odb.Length && var s, out := p + c, written + odb[..odbp];
        |out| == |s| && forall i :: 0 <= i < |s| ==> out[i] == if ctab == [] then s[i] else ctab[s[i]]
    {
      hide Translate;
      TakeIn(p, c);
      if idbcnt >= odbsz {
        DdOut(false);
        idbp := odbp;
        idbcnt := odbcnt;
      }
      DefSays(p + c);
    }

    // block

    /** The loop at the start of block: the rest of a line that has filled its record is dropped. */
    method TossStart() returns (inp: nat, cnt: nat)
      requires idbrcnt <= idb.Length
      ensures inp <= idbrcnt && if cnt > 0 then inp > 0 && inp - 1 + cnt == idbrcnt && idb[inp - 1] == NL else inp == idbrcnt
      ensures NL !in idb[..if cnt > 0 then inp - 1 else inp]
    {
      inp := 0;
      cnt := idbrcnt;
      while cnt > 0
        invariant 0 <= cnt && inp + cnt == idbrcnt && NL !in idb[..inp]
      {
        inp := inp + 1;
        if idb[inp - 1] == NL {
          break;
        }
        assert idb[..inp] == idb[..inp - 1] + [idb[inp - 1]];
        cnt := cnt - 1;
      }
    }

    /** The loop that tosses characters to a newline at inp0 or later. */
    method TossOn(inp0: nat) returns (inp: nat)
      requires idbcnt <= idbp <= idb.Length && inp0 + idbcnt == idbp
      modifies this`idbcnt
      ensures inp0 <= inp <= idbp && inp + idbcnt == idbp + (if idbcnt > 0 then 1 else 0)
      ensures idbcnt > 0 ==> inp0 < inp && idb[inp - 1] == NL
      ensures NL !in idb[inp0..if idbcnt > 0 then inp - 1 else inp]
    {
      inp := inp0;
      while idbcnt > 0
        invariant inp0 <= inp && inp + idbcnt == idbp && NL !in idb[inp0..inp]
        decreases idbcnt
      {
        inp := inp + 1;
        if idb[inp - 1] == NL {
          break;
        }
        assert idb[inp0..inp] == idb[inp0..inp - 1] + [idb[inp - 1]];
        idbcnt := idbcnt - 1;
      }
    }

    /** The loop that copies one record, up to a newline or to maxlen bytes. ch is the last byte
        that was looked at. */
    method CopyRecord(inp0: nat, maxlen: nat) returns (inp: nat, cnt: nat, ch: int)
      requires idb != odb && 0 < maxlen && inp0 + maxlen <= idb.Length && odbp + maxlen <= odb.Length
      modifies odb
      ensures cnt <= maxlen && NL !in idb[inp0..inp0 + cnt]
      ensures odb[..odbp] == old(odb[..odbp]) && odb[odbp..odbp + cnt] == idb[inp0..inp0 + cnt]
      ensures if ch == NL then cnt < maxlen && idb[inp0 + cnt] == NL && inp == inp0 + cnt + 1 else cnt == maxlen && inp == inp0 + cnt
    {
      inp, cnt, ch := inp0, 0, -1;
      while cnt < maxlen
        invariant cnt <= maxlen && inp == inp0 + cnt && (cnt > 0 ==> ch != NL) && NL !in idb[inp0..inp]
        invariant odb[..odbp] == old(odb[..odbp]) && odb[odbp..odbp + cnt] == idb[inp0..inp]
      {
        ch := idb[inp];
        inp := inp + 1;
        if ch == NL {
          break;
        }
        odb[odbp + cnt] := ch;
        assert idb[inp0..inp] == idb[inp0..inp - 1] + [idb[inp - 1]];
        assert odb[odbp..odbp + cnt + 1] == odb[odbp..odbp + cnt] + [odb[odbp + cnt]];
        cnt := cnt + 1;
      }
    }

    /** A record behind the output goes out. */
    method PutRecord(ghost flow: Bytes, ghost rec: Bytes)
      requires Sized() && cfunc == ToBlocks && Output(flow) && odb[odbp..odbp + cbsz] == rec
      modifies this`odbp, this`odbcnt, this`bytes, this`written, odb
      ensures Output(flow + rec)
    {
      assert odb[..odbcnt + cbsz] == odb[..odbcnt] + odb[odbp..odbp + cbsz];
      Assoc(written, odb[..odbcnt], odb[odbp..odbp + cbsz]);
      odbp := odbp + cbsz;
      odbcnt := odbcnt + cbsz;
      if odbcnt >= odbsz {
        DdOut(false);
      }
    }

    /** The line that has been copied behind the output is padded and goes out. */
    method PadRecord(cnt: nat, ghost line: Bytes, ghost flow: Bytes)
      requires Sized() && cfunc == ToBlocks && Output(flow) && cnt == |line| <= cbsz && odb[odbp..odbp + cnt] == line
      modifies this`odbp, this`odbcnt, this`bytes, this`written, odb
      ensures Output(flow + Fit(line, cbsz))
    {
      ghost var was := odb[..odbcnt];
      ghost var front := odb[..odbp + cnt];
      assert front == was + line;
      Memset(odb, odbp + cnt, SP, cbsz - cnt);
      assert odb[..odbcnt] == front[..odbcnt] == was;
      assert odb[odbp..odbp + cnt] == front[odbp..] == line;
      assert odb[odbp..odbp + cbsz] == odb[odbp..odbp + cnt] + odb[odbp + cnt..odbp + cnt + (cbsz - cnt)];
      PutRecord(flow, Fit(line, cbsz));
    }

    /** q has been converted, and the rest of s is in the input buffer from inp to idbp. */
    ghost predicate Left(inp: nat, q: Bytes, s: Bytes)
      reads this`idbp, idb
    {
      inp <= idbp <= idb.Length && q + idb[inp..idbp] == s
    }

    /** In the middle of block: q, which is complete lines, has gone out. */
    ghost predicate Blocking(inp: nat, q: Bytes, s: Bytes)
      reads this, idb, odb
    {
      && Sized() && cfunc == ToBlocks && Output(BlockFlow(q, cbsz))
      && inp + idbcnt == idbp <= idb.Length && !intrunc
      && Complete(q) && Left(inp, q, s)
    }

    /** A line ends at k. */
    lemma LineLeft(i: nat, k: nat, q: Bytes, s: Bytes)
      requires cbsz > 0 && Left(i, q, s) && i <= k < idbp && Complete(q) && NL !in idb[i..k] && idb[k] == NL
      ensures var q' := q + idb[i..k] + [NL];
        Complete(q') && Left(k + 1, q', s) && BlockFlow(q', cbsz) == BlockFlow(q, cbsz) + Fit(idb[i..k], cbsz)
      ensures i + cbsz <= k ==> Fit(idb[i..k], cbsz) == idb[i..i + cbsz]
    {
      LineInBuffer(idb, i, k, idbp, q, s, cbsz);
    }

    /** No line ends in what is left. */
    lemma NoLineLeft(i: nat, q: Bytes, s: Bytes)
      requires cbsz > 0 && Left(i, q, s) && Complete(q) && NL !in idb[i..idbp]
      ensures BlockTrunc(s, cbsz) <==> i + cbsz <= idbp
      ensures i + cbsz <= idbp ==> BlockFlow(s, cbsz) == BlockFlow(q, cbsz) + idb[i..i + cbsz] && BlockRest(s, cbsz) == []
      ensures idbp < i + cbsz ==> BlockFlow(s, cbsz) == BlockFlow(q, cbsz) && BlockRest(s, cbsz) == idb[i..idbp]
    {
      NoLineInBuffer(idb, i, idbp, q, s, cbsz);
    }

    /** The input was used up. */
    ghost predicate Blocked(s: Bytes)
      reads this, idb, odb
    {
      && Sized() && cfunc == ToBlocks && Output(BlockFlow(s, cbsz)) && idbcnt <= idb.Length
      && intrunc == BlockTrunc(s, cbsz) && idb[..idbcnt] == BlockRest(s, cbsz)
    }

    /** The body of the main loop of block, for a record that is shorter than cbsz. */
    method ShortRecord(inp0: nat, inp1: nat, cnt: nat, ghost q0: Bytes, ghost s: Bytes) returns (ghost q: Bytes)
      requires Blocking(inp0, q0, s) && cnt < cbsz && cnt < idbcnt && inp1 == inp0 + cnt + 1
      requires NL !in idb[inp0..inp0 + cnt] && idb[inp0 + cnt] == NL && odb[odbp..odbp + cnt] == idb[inp0..inp0 + cnt]
      modifies this`idbcnt, this`odbp, this`odbcnt, this`bytes, this`written, odb
      ensures Blocking(inp1, q, s) && idbcnt < old(idbcnt)
    {
      hide Output, BlockFlow, Complete, Fit, Left;
      LineLeft(inp0, inp0 + cnt, q0, s);
      q := q0 + idb[inp0..inp0 + cnt] + [NL];
      idbcnt := idbcnt - cnt - 1;
      PadRecord(cnt, idb[inp0..inp0 + cnt], BlockFlow(q0, cbsz));
    }

    /** The same for a record of cbsz bytes: the rest of the line is tossed. */
    method LongRecord(inp0: nat, inp1: nat, ghost q0: Bytes, ghost s: Bytes) returns (inp: nat, ghost q: Bytes)
      requires Blocking(inp0, q0, s) && cbsz <= idbcnt && inp1 == inp0 + cbsz
      requires NL !in idb[inp0..inp1] && odb[odbp..odbp + cbsz] == idb[inp0..inp1]
      modifies this`idbcnt, this`intrunc, this`odbp, this`odbcnt, this`bytes, this`written, odb
      ensures idbcnt < old(idbcnt)
      ensures if intrunc then idbcnt == 0 && Blocked(s) else Blocking(inp, q, s)
    {
      hide Output, BlockFlow, BlockRest, BlockTrunc, Complete, Fit, Left;
      q := q0;
      idbcnt := idbcnt - cbsz;
      inp := TossOn(inp1);
      if idbcnt == 0 {
        intrunc := true;
        assert idb[..0] == [];
        NoNewlines(idb, inp0, inp1, idbp);
        NoLineLeft(inp0, q0, s);
      } else {
        idbcnt := idbcnt - 1;
        NoNewlines(idb, inp0, inp1, inp - 1);
        LineLeft(inp0, inp - 1, q0, s);
        q := q0 + idb[inp0..inp - 1] + [NL];
      }
      PutRecord(BlockFlow(q0, cbsz), idb[inp0..inp1]);
    }

    /** A record that is short and has no newline yet moves to the front of the input buffer. */
    method KeepRecord(inp0: nat, ghost q0: Bytes, ghost s: Bytes)
      requires Blocking(inp0, q0, s) && idbcnt < cbsz && NL !in idb[inp0..idbp]
      modifies idb
      ensures Blocked(s)
    {
      hide BlockFlow, BlockRest, BlockTrunc, Complete, Left, Output;
      NoLineLeft(inp0, q0, s);
      Memmove(idb, 0, idb, idbp - idbcnt, idbcnt);
      assert idb[0..0 + idbcnt] == idb[..idbcnt];
    }

    /** The body of the main loop of block. */
    method OneRecord(inp0: nat, ghost q0: Bytes, ghost s: Bytes) returns (inp: nat, stop: bool, ghost q: Bytes)
      requires Blocking(inp0, q0, s) && idbcnt > 0
      modifies this`idbcnt, this`intrunc, this`odbp, this`odbcnt, this`bytes, this`written, idb, odb
      ensures stop ==> Blocked(s)
      ensures !stop ==> idbcnt < old(idbcnt) && if intrunc then idbcnt == 0 && Blocked(s) else Blocking(inp, q, s)
    {
      hide BlockFlow, BlockRest, BlockTrunc, Complete, Left;
      var maxlen := if cbsz < idbcnt then cbsz else idbcnt;
      var cnt, ch;
      inp, cnt, ch := CopyRecord(inp0, maxlen);
      q, stop := q0, false;
      if ch != NL && idbcnt < cbsz {
        KeepRecord(inp0, q0, s);
        stop := true;
      } else if cnt < cbsz {
        q := ShortRecord(inp0, inp, cnt, q0, s);
      } else {
        inp, q := LongRecord(inp0, inp, q0, s);
      }
    }

    lemma DroppingSays(p: Bytes, c: Bytes)
      requires cfunc == ToBlocks && Loaded(p, c) && intrunc
      ensures idb[..idbcnt] == c && |c| == idbcnt == idbrcnt == idbp <= idb.Length && BlockTrunc(p, cbsz)
      ensures Sized() && Output(BlockFlow(p, cbsz))
    {
      BlockEnds(p, cbsz);
    }

    lemma AllDropped(p: Bytes, c: Bytes)
      requires cbsz > 0 && BlockTrunc(p, cbsz) && NL !in c
      ensures BlockFlow(p + c, cbsz) == BlockFlow(p, cbsz) && BlockTrunc(p + c, cbsz) && BlockRest(p + c, cbsz) == idb[..0]
    {
      BlockDrops(p, c, cbsz);
    }

    /** The start of block when a line is being dropped. */
    method ResumeBlock(ghost p: Bytes, ghost c: Bytes) returns (done: bool, ghost q: Bytes)
      requires cfunc == ToBlocks && Loaded(p, c) && intrunc
      modifies this`idbp, this`idbcnt, this`intrunc
      ensures if done then Blocked(p + c) && idbp == idbcnt else idbcnt <= idbp && Blocking(idbp - idbcnt, q, p + c)
    {
      hide Output, BlockFlow, BlockRest, BlockTrunc, Complete, Loaded, Left;
      DroppingSays(p, c);
      var inp, cnt := TossStart();
      if cnt == 0 {
        AllDropped(p, c);
        idbcnt := 0;
        idbp := 0;
        return true, [];
      }
      done, intrunc := false, false;
      idbcnt := cnt - 1;
      idbp := inp + cnt - 1;
      q := ResumeLeft(inp - 1, p, c);
    }

    lemma ResumeLeft(k: nat, p: Bytes, c: Bytes) returns (q: Bytes)
      requires cbsz > 0 && k < idbp <= idb.Length && c == idb[..idbp] && NL !in idb[..k] && idb[k] == NL && BlockTrunc(p, cbsz)
      ensures Left(k + 1, q, p + c) && Complete(q) && BlockFlow(q, cbsz) == BlockFlow(p, cbsz)
    {
      q := ResumeInBuffer(idb, k, idbp, p, c, cbsz);
    }

    /** Otherwise the unfinished line is in front of what was read. */
    lemma StartBlock(p: Bytes, c: Bytes) returns (q: Bytes)
      requires cfunc == ToBlocks && Loaded(p, c) && !intrunc
      ensures idbcnt <= idbp && Blocking(idbp - idbcnt, q, p + c)
    {
      hide BlockFlow, BlockRest, BlockTrunc, Complete;
      q := BlockCut(p, cbsz);
      Assoc(q, BlockRest(p, cbsz), c);
      assert idb[0..idbp] == idb[..idbcnt];
      assert Left(0, q, p + c);
    }

    /** block */
    method DoBlock(ghost p: Bytes, ghost c: Bytes)
      requires cfunc == ToBlocks && Loaded(p, c)
      modifies this`idbp, this`idbcnt, this`intrunc, this`odbp, this`odbcnt, this`bytes, this`written, idb, odb
      ensures At(p + c)
    {
      hide BlockFlow, BlockRest, BlockTrunc, Complete, Left;
      ghost var s := p + c;
      ghost var q;
      if intrunc {
        var done;
        done, q := ResumeBlock(p, c);
        if done {
          return;
        }
      } else {
        q := StartBlock(p, c);
      }
      var inp: nat, stop := idbp - idbcnt, false;
      while idbcnt > 0
        invariant !stop && if intrunc then idbcnt == 0 && Blocked(s) else Blocking(inp, q, s)
      {
        inp, stop, q := OneRecord(inp, q, s);
        if stop {
          break;
        }
      }
      if !stop && !intrunc {
        AllGone(inp, q, s);
      }
      idbp := idbcnt;
    }

    lemma AllGone(inp: nat, q: Bytes, s: Bytes)
      requires Blocking(inp, q, s) && idbcnt == 0
      ensures Blocked(s)
    {
      assert q + idb[inp..idbp] == q;
      BlockOn(q, [], cbsz);
      assert idb[..idbcnt] == [];
    }

    // unblock

    /** The loop that looks for the last byte of a record that is not a space. */
    method LastNonSpace(inp: nat, n: nat) returns (cnt: nat)
      requires inp + n <= idb.Length
      ensures cnt <= n && idb[inp..inp + cnt] == Strip(idb[inp..inp + n])
    {
      var t: int := inp + n - 1;
      while t >= inp && idb[t] == SP
        invariant inp - 1 <= t < inp + n
        invariant Strip(idb[inp..inp + n]) == Strip(idb[inp..t + 1])
      {
        ghost var rec := idb[inp..t + 1];
        assert rec[..|rec| - 1] == idb[inp..t];
        t := t - 1;
      }
      cnt := t + 1 - inp;
    }

    /** A line without trailing spaces goes behind the output. */
    method PutLine(inp: nat, n: nat)
      requires idb != odb && inp + n <= idb.Length && odbp == odbcnt && odbcnt + n + 1 <= odb.Length
      modifies this`odbp, this`odbcnt, odb
      ensures odbp == odbcnt <= old(odbcnt) + n + 1 && odbcnt > 0
      ensures Sent() == old(Sent()) + (Strip(idb[inp..inp + n]) + [NL])
    {
      var cnt := LastNonSpace(inp, n);
      ghost var was, line := odb[..odbcnt], idb[inp..inp + cnt];
      if cnt > 0 {
        Memmove(odb, odbp, idb, inp, cnt);
        odbp := odbp + cnt;
        odbcnt := odbcnt + cnt;
      }
      assert odb[..odbcnt] == was + line;
      odbcnt := odbcnt + 1;
      odb[odbp] := NL;
      odbp := odbp + 1;
      assert odb[..odbcnt] == was + (line + [NL]);
      Assoc(written, was, line + [NL]);
    }

    /** In the middle of unblock: q, which is full records, has gone out. */
    ghost predicate Unblocking(inp: nat, q: Bytes, s: Bytes)
      reads this, idb, odb
    {
      && Sized() && cfunc == ToLines && Output(UnblockFlow(q, cbsz))
      && inp + idbcnt == idbp <= idb.Length && Records(q, cbsz) && Left(inp, q, s)
    }

    lemma RecordLeft(i: nat, q: Bytes, s: Bytes)
      requires cbsz > 0 && Left(i, q, s) && i + cbsz <= idbp && Records(q, cbsz)
      ensures var q' := q + idb[i..i + cbsz];
        Records(q', cbsz) && Left(i + cbsz, q', s) && UnblockFlow(q', cbsz) == UnblockFlow(q, cbsz) + (Strip(idb[i..i + cbsz]) + [NL])
    {
      assert idb[i..idbp] == idb[i..i + cbsz] + idb[i + cbsz..idbp];
      UnblockStep(q, idb[i..i + cbsz], idb[i + cbsz..idbp], cbsz);
    }

    /** The body of the loop of unblock. */
    method UnblockRecord(inp0: nat, ghost q0: Bytes, ghost s: Bytes) returns (inp: nat, ghost q: Bytes)
      requires Unblocking(inp0, q0, s) && idbcnt >= cbsz
      modifies this`idbcnt, this`odbp, this`odbcnt, this`bytes, this`written, odb
      ensures Unblocking(inp, q, s) && idbcnt == old(idbcnt) - cbsz
    {
      hide UnblockFlow, Records, Left, Strip;
      RecordLeft(inp0, q0, s);
      q := q0 + idb[inp0..inp0 + cbsz];
      PutLine(inp0, cbsz);
      if odbcnt >= odbsz {
        DdOut(false);
      }
      inp := inp0 + cbsz;
      idbcnt := idbcnt - cbsz;
    }

    /** What is left of a record moves to the front of the input buffer. */
    method KeepTail(inp: nat, ghost q: Bytes, ghost s: Bytes)
      requires Unblocking(inp, q, s) && idbcnt < cbsz
      modifies this`idbp, idb
      ensures At(s)
    {
      ghost var tail := idb[inp..idbp];
      TailSays(q, tail);
      hide UnblockFlow, UnblockRest, Records, Translate, BlockFlow, BlockRest, BlockTrunc;
      if idbcnt > 0 {
        Memmove(idb, 0, idb, idbp - idbcnt, idbcnt);
        assert idb[0..0 + idbcnt] == idb[..idbcnt];
      }
      assert idb[..idbcnt] == tail;
      idbp := idbcnt;
    }

    lemma TailSays(q: Bytes, tail: Bytes)
      requires cbsz > 0 && Records(q, cbsz) && |tail| < cbsz
      ensures UnblockFlow(q + tail, cbsz) == UnblockFlow(q, cbsz) && UnblockRest(q + tail, cbsz) == tail
    {
      UnblockOn(q, tail, cbsz);
      assert UnblockFlow(q, cbsz) + [] == UnblockFlow(q, cbsz);
    }

    /** unblock */
    method DoUnblock(ghost p: Bytes, ghost c: Bytes)
      requires cfunc == ToLines && Loaded(p, c)
      modifies this`idbp, this`idbcnt, this`odbp, this`odbcnt, this`bytes, this`written, idb, odb
      ensures At(p + c)
    {
      ghost var q := UnblockCut(p, cbsz);
      Assoc(q, UnblockRest(p, cbsz), c);
      assert idb[0..idbp] == idb[..idbcnt];
      hide UnblockFlow, UnblockRest, Records;
      assert Left(0, q, p + c);
      hide Left;
      var inp := 0;
      while idbcnt >= cbsz
        invariant Unblocking(inp, q, p + c)
      {
        inp, q := UnblockRecord(inp, q, p + c);
      }
      KeepTail(inp, q, p + c);
    }

    lemma FitShort(rest: Bytes, cbs: nat)
      requires |rest| < cbs
      ensures Fit(rest, cbs) == rest + Spaces(cbs - |rest|) && |Spaces(cbs - |rest|)| == cbs - |rest|
    {
    }

    /** What is left of the input goes behind the output, padded to a record. */
    method FillRecord(ghost rest: Bytes)
      requires idb != odb && odbp == odbcnt && odbp + cbsz <= odb.Length && idbp == idbcnt <= idb.Length && idb[..idbcnt] == rest && |rest| < cbsz
      modifies odb
      ensures odb[..odbcnt + cbsz] == old(odb[..odbcnt]) + Fit(rest, cbsz)
    {
      ghost var was := odb[..odbcnt];
      FitShort(rest, cbsz);
      hide *;
      assert idb[idbp - idbcnt..idbp - idbcnt + idbcnt] == rest;
      Memmove(odb, odbp, idb, idbp - idbcnt, idbcnt);
      ghost var front := odb[..odbp + idbcnt];
      assert front == was + rest;
      Memset(odb, odbp + idbcnt, SP, cbsz - idbcnt);
      assert odb[..odbp + cbsz] == front + Spaces(cbsz - |rest|);
      Assoc(was, rest, Spaces(cbsz - |rest|));
    }

    /** block_close: what is left in the input buffer is a record. The pointer into the output
        buffer stays behind, but only the count is used after this. */
    method BlockClose(ghost p: Bytes)
      requires cfunc == ToBlocks && At(p)
      modifies this`odbcnt, odb
      ensures odbcnt <= odb.Length && Sent() == Block(p, cbsz)
    {
      BlockEnds(p, cbsz);
      hide BlockFlow, BlockRest, BlockTrunc, Block, Fit;
      if idbcnt > 0 {
        ghost var was, rest := odb[..odbcnt], idb[..idbcnt];
        FillRecord(rest);
        odbcnt := odbcnt + cbsz;
        Assoc(written, was, Fit(rest, cbsz));
      }
    }

    /** unblock_close: what is left in the input buffer is a line. */
    method UnblockClose(ghost p: Bytes)
      requires cfunc == ToLines && At(p)
      modifies this`odbp, this`odbcnt, odb
      ensures odbcnt <= odb.Length && Sent() == Unblock(p, cbsz)
    {
      UnblockEnds(p, cbsz);
      hide UnblockFlow, UnblockRest, Unblock, Strip;
      if idbcnt > 0 {
        PutLine(0, idbcnt);
        assert idb[0..0 + idbcnt] == idb[..idbcnt];
      }
    }

    /** dd_close: the rest goes out, and the output is what the conversion makes of the input. */
    method DdClose(ghost p: Bytes)
      requires At(p)
      modifies this`odbp, this`odbcnt, this`bytes, this`written, odb
      ensures written == Converted(cfunc, ctab, cbsz, p) && bytes == |written|
    {
      hide BlockFlow, BlockRest, BlockTrunc, UnblockFlow, UnblockRest, Translate, Block, Unblock;
      match cfunc {
        case Def =>
          if idbcnt > 0 {
            odbcnt := idbcnt;
          }
        case ToBlocks =>
          BlockClose(p);
        case ToLines =>
          UnblockClose(p);
      }
      if odbcnt > 0 {
        DdOut(true);
      }
      assert written + odb[..0] == written;
    }

    /** The loop of dd_in: one read after the other, each of any size up to ibs. */
    method DdIn(chunks: seq<Bytes>)
      requires At([]) && forall i :: 0 <= i < |chunks| ==> 0 < |chunks[i]| <= idbsz
      modifies this, idb, odb
      ensures At(Concat(chunks))
    {
      hide At, Loaded;
      for i := 0 to |chunks|
        invariant At(Concat(chunks[..i]))
      {
        ghost var p := Concat(chunks[..i]);
        Read(chunks[i], p);
        match cfunc {
          case Def => DoDef(p, chunks[i]);
          case ToBlocks => DoBlock(p, chunks[i]);
          case ToLines => DoUnblock(p, chunks[i]);
        }
        assert chunks[..i + 1][..i] == chunks[..i];
      }
      assert chunks[..|chunks|] == chunks;
    }
  }

  /** The input, however it was cut into reads. */
  ghost function Concat(chunks: seq<Bytes>): Bytes {
    if chunks == [] then [] else Concat(chunks[..|chunks| - 1]) + chunks[|chunks| - 1]
  }

  /** What the conversion makes of a whole input. */
  ghost function Converted(cfunc: Conv, ctab: Table, cbs: nat, s: Bytes): Bytes
    requires cfunc != Def ==> cbs > 0
  {
    match cfunc
    case Def => Translate(ctab, s)
    case ToBlocks => Block(s, cbs)
    case ToLines => Unblock(s, cbs)
  }

  /** The same, byte by byte: every byte is replaced once, by its entry in the table, if there is one;
      or the lines become records; or the records become lines. */
  ghost predicate IsConverted(cfunc: Conv, ctab: Table, cbs: nat, s: Bytes, out: Bytes) {
    && (cfunc == Def ==> |out| == |s| && forall i :: 0 <= i < |s| ==> out[i] == if ctab == [] then s[i] else ctab[s[i]])
    && (cfunc == ToBlocks ==> IsBlocked(s, out, cbs))
    && (cfunc == ToLines && cbs > 0 ==> IsUnblocked(s, out, cbs))
  }

  lemma ConvertedIs(cfunc: Conv, ctab: Table, cbs: nat, s: Bytes)
    requires cfunc != Def ==> cbs > 0
    ensures IsConverted(cfunc, ctab, cbs, s, Converted(cfunc, ctab, cbs, s))
  {
    BlockIsBlocked(s, cbs);
    if cbs > 0 {
      UnblockIsUnblocked(s, cbs);
    }
  }

  /** How the input is cut into reads makes no difference, only their order does. */
  lemma {:induction false} ConcatSplit(a: seq<Bytes>, b: seq<Bytes>)
    ensures Concat(a + b) == Concat(a) + Concat(b)
    ensures forall s: Bytes :: Concat([s]) == s
  {
    forall s: Bytes ensures Concat([s]) == s {
      assert [s][..0] == [] && Concat([s][..0]) == [] && [] + s == s;
    }
    if b == [] {
      assert a + b == a;
    } else {
      var init := b[..|b| - 1];
      ConcatSplit(a, init);
      assert (a + b)[..|a + b| - 1] == a + init;
      Assoc(Concat(a), Concat(init), b[|b| - 1]);
    }
  }

  /** A whole run of dd. */
  method Run(cfunc: Conv, ibs: nat, obs: nat, cbs: nat, ctab: Table, chunks: seq<Bytes>) returns (out: Bytes, bytes: nat)
    requires ibs > 0 && obs > 0 && (cfunc != Def ==> cbs > 0 && ctab == [])
    requires forall i :: 0 <= i < |chunks| ==> 0 < |chunks[i]| <= ibs
    ensures out == Converted(cfunc, ctab, cbs, Concat(chunks)) && bytes == |out|
    ensures IsConverted(cfunc, ctab, cbs, Concat(chunks), out)
  {
    ConvertedIs(cfunc, ctab, cbs, Concat(chunks));
    var dd := new Dd(cfunc, ibs, obs, cbs, ctab);
    assert dd.odb[..0] == [] && dd.idb[..0] == [];
    dd.DdIn(chunks);
    dd.DdClose(Concat(chunks));
    out, bytes := dd.written, dd.bytes;
  }

  /** Blocking a text and unblocking the result, each with any reads, gives the text back exactly
      when its lines are neat. */
  method RoundTrip(ibs: nat, obs: nat, ibs': nat, obs': nat, cbs: nat, chunks: seq<Bytes>, chunks': seq<Bytes>) returns (out: Bytes)
    requires ibs > 0 && obs > 0 && ibs' > 0 && obs' > 0 && cbs > 0
    requires forall i :: 0 <= i < |chunks| ==> 0 < |chunks[i]| <= ibs
    requires forall i :: 0 <= i < |chunks'| ==> 0 < |chunks'[i]| <= ibs'
    requires Concat(chunks') == Block(Concat(chunks), cbs)
    ensures out == Concat(chunks) <==> Neat(Concat(chunks), cbs)
  {
    var mid, n := Run(ToBlocks, ibs, obs, cbs, [], chunks);
    assert mid == Concat(chunks');
    out, n := Run(ToLines, ibs', obs', cbs, [], chunks');
    UnblockOfBlock(Concat(chunks), cbs);
  }

  /** The other way round: exactly for full records without newlines. */
  method RoundBack(ibs: nat, obs: nat, ibs': nat, obs': nat, cbs: nat, chunks: seq<Bytes>, chunks': seq<Bytes>) returns (out: Bytes)
    requires ibs > 0 && obs > 0 && ibs' > 0 && obs' > 0 && cbs > 0
    requires forall i :: 0 <= i < |chunks| ==> 0 < |chunks[i]| <= ibs
    requires forall i :: 0 <= i < |chunks'| ==> 0 < |chunks'[i]| <= ibs'
    requires Concat(chunks') == Unblock(Concat(chunks), cbs)
    ensures out == Concat(chunks) <==> |Concat(chunks)| % cbs == 0 && NL !in Concat(chunks)
  {
    var mid, n := Run(ToLines, ibs, obs, cbs, [], chunks);
    assert mid == Concat(chunks');
    out, n := Run(ToBlocks, ibs', obs', cbs, [], chunks');
    BlockOfUnblock(Concat(chunks), cbs);
    RecordsLength(Concat(chunks), cbs);
  }

  /** Two tables, one after the other. */
  function Composed(t: Table, u: Table): Table
    requires |t| == |u| == 256
  {
    seq(256, i requires 0 <= i < 256 => u[t[i]])
  }

  /** A run with one table and a run of the result with another, each with any reads, is one run with
      the composed table. */
  method TranslateTwice(ibs: nat, obs: nat, ibs': nat, obs': nat, t: Table, u: Table, chunks: seq<Bytes>, chunks': seq<Bytes>) returns (out: Bytes, once: Bytes)
    requires ibs > 0 && obs > 0 && ibs' > 0 && obs' > 0 && |t| == |u| == 256
    requires forall i :: 0 <= i < |chunks| ==> 0 < |chunks[i]| <= ibs
    requires forall i :: 0 <= i < |chunks'| ==> 0 < |chunks'[i]| <= ibs'
    requires |Concat(chunks')| == |Concat(chunks)| && forall i :: 0 <= i < |Concat(chunks)| ==> Concat(chunks')[i] == t[Concat(chunks)[i]]
    ensures out == once && |out| == |Concat(chunks)| && forall i :: 0 <= i < |out| ==> out[i] == u[t[Concat(chunks)[i]]]
  {
    var mid, n := Run(Def, ibs, obs, 0, t, chunks);
    assert mid == Concat(chunks');
    out, n := Run(Def, ibs', obs', 0, u, chunks');
    once, n := Run(Def, ibs, obs, 0, Composed(t, u), chunks);
    assert out == once;
  }
}
