/** Words of 32 bits: what single bits of a combination are. */
module ModeWords {

  predicate Has(b: bv32, k: bv32) {
    b & k != 0
  }

  lemma Spread(p: bv32, q: bv32, k: bv32)
    ensures (p | q) & k == (p & k) | (q & k)
  {
  }

  lemma NoBits(p: bv32, q: bv32)
    ensures p | q == 0 <==> p == 0 && q == 0
  {
  }

  lemma BitOr(p: bv32, q: bv32, k: bv32)
    ensures Has(p | q, k) <==> Has(p, k) || Has(q, k)
  {
    Spread(p, q, k);
    NoBits(p & k, q & k);
  }

  predicate Single(k: bv32) {
    k in {0, 1, 2, 4, 8, 0x10, 0x20, 0x40, 0x80, 0x100, 0x400, 0x800}
  }

  lemma BitAnd(p: bv32, q: bv32, k: bv32)
    requires Single(k)
    ensures Has(p & q, k) <==> Has(p, k) && Has(q, k)
  {
  }

  lemma RawMinus(p: bv32, q: bv32, k: bv32)
    requires Single(k)
    ensures (p & !q) & k != 0 <==> p & k != 0 && !(q & k != 0)
  {
  }

  lemma BitMinus(p: bv32, q: bv32, k: bv32)
    requires Single(k)
    ensures Has(p & !q, k) <==> Has(p, k) && !Has(q, k)
  {
    RawMinus(p, q, k);
    hide Single;
  }

  lemma ExecLogic(b: bv32)
    ensures Has(b, 0x4000 | 0x49) <==> Has(b, 0x4000) || Has(b, 0x40) || Has(b, 0x8) || Has(b, 0x1)
  {
  }

  /** j in the place of the user y among three. */
  function At(y: char, j: bv32): bv32 {
    if y == 'u' then j << 6 else if y == 'g' then j << 3 else j
  }

  /** The three bits of the user y, in the lowest place. */
  function Third(y: char, m: bv32): bv32 {
    if y == 'u' then (m & 0x1C0) >> 6 else if y == 'g' then (m & 0x38) >> 3 else m & 0x7
  }

  function Thrice(v: bv32): bv32 {
    (v << 6) | (v << 3) | v
  }

  predicate Small(v: bv32) {
    v & 0xFFFFFFF8 == 0
  }

  lemma Place(v: bv32, y: char, j: bv32)
    requires Small(v) && (j == 1 || j == 2 || j == 4)
    ensures Has(Thrice(v), At(y, j)) <==> Has(v, j)
  {
  }

  lemma Lowest(m: bv32, y: char, j: bv32)
    requires j == 1 || j == 2 || j == 4
    ensures Has(Third(y, m), j) <==> Has(m, At(y, j))
    ensures Small(Third(y, m))
  {
  }

  function Cut(b: bv32): bv32 {
    b & !0xDFF
  }

  lemma CutOr(m: bv32, n: bv32)
    ensures Cut(m | n) == Cut(m) | Cut(n)
  {
  }

  lemma OrNone(m: bv32)
    ensures m | 0 == m
  {
  }

  lemma OrElsewhere(m: bv32, n: bv32)
    requires Cut(n) == 0
    ensures Cut(m | n) == Cut(m)
  {
    CutOr(m, n);
    OrNone(Cut(m));
    hide *;
  }

  lemma MinusElsewhere(m: bv32, n: bv32)
    requires Cut(n) == 0
    ensures Cut(m & !n) == Cut(m)
  {
  }

  lemma AndElsewhere(m: bv32, n: bv32)
    requires Cut(n) == 0
    ensures Cut(m & n) == 0
  {
  }
}

