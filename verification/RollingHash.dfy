/** What the boundary test of content-defined chunking decides
    (crates/openvault-core/src/incremental.rs), in bits and in weighted sums of bytes. */
module RollingHash {
  import opened Common
  import opened Chunker

  // ---------------------------------------------------------------- bits

  /** Every bit set in `mask` is set in `h`. */
  ghost predicate AllBits(mask: nat, h: nat) {
    forall i: nat :: (mask / Pow2(i)) % 2 == 1 ==> (h / Pow2(i)) % 2 == 1
  }

  lemma Quotient(n: int, p: int, q: int, r: int)
    requires p > 0 && n == p * q + r && 0 <= r < p
    ensures n / p == q && n % p == r
  {
    var d := n / p - q;
    assert p * d == r - n % p;
    Multiple(p, d);
  }

  lemma Multiple(p: int, d: int)
    requires p > 0
    ensures d >= 1 ==> p * d >= p
    ensures d <= -1 ==> p * d <= -p
  {}

  lemma HalfFirst(n: nat, p: nat)
    requires p > 0
    ensures n / (2 * p) == (n / 2) / p
    ensures n % (2 * p) == n % 2 + 2 * ((n / 2) % p)
  {
    var q, r := (n / 2) / p, (n / 2) % p;
    assert n == 2 * (p * q + r) + n % 2;
    assert 2 * (p * q) == (2 * p) * q;
    Quotient(n, 2 * p, q, n % 2 + 2 * r);
  }

  lemma BitsOfHalves(mask: nat, h: nat)
    ensures AllBits(mask, h) <==> (mask % 2 == 1 ==> h % 2 == 1) && AllBits(mask / 2, h / 2)
  {
    forall i: nat
      ensures mask / Pow2(i + 1) == (mask / 2) / Pow2(i) && h / Pow2(i + 1) == (h / 2) / Pow2(i)
    {
      HalfFirst(mask, Pow2(i));
      HalfFirst(h, Pow2(i));
    }
    assert mask / Pow2(0) == mask && h / Pow2(0) == h;
    if AllBits(mask, h) {
      forall i: nat | ((mask / 2) / Pow2(i)) % 2 == 1 ensures ((h / 2) / Pow2(i)) % 2 == 1 {
        assert (mask / Pow2(i + 1)) % 2 == 1;
      }
    }
    if (mask % 2 == 1 ==> h % 2 == 1) && AllBits(mask / 2, h / 2) {
      forall i: nat | (mask / Pow2(i)) % 2 == 1 ensures (h / Pow2(i)) % 2 == 1 {
        if i > 0 {
          assert ((mask / 2) / Pow2(i - 1)) % 2 == 1;
        }
      }
    }
  }

  /** The test passes exactly if every bit set in the mask is set in the hash. */
  lemma {:induction false} PassesByBits(h: nat, mask: nat)
    ensures And(h, mask) == mask <==> AllBits(mask, h)
    decreases mask
  {
    if mask == 0 {
      forall i: nat ensures (0 / Pow2(i)) % 2 == 0 {
        Quotient(0, Pow2(i), 0, 0);
      }
    } else {
      AndUnfolds(h, mask);
      PassesByBits(h / 2, mask / 2);
      BitsOfHalves(mask, h);
    }
  }

  lemma AndOddMask(h: nat, m: nat)
    ensures And(h, 2 * m + 1) == h % 2 + 2 * And(h / 2, m)
  {
    AndUnfolds(h, 2 * m + 1);
    assert (2 * m + 1) / 2 == m;
  }

  lemma AndWiderMask(h: nat, p: nat)
    requires p > 0 && And(h / 2, p - 1) == h / 2 % p
    ensures And(h, 2 * p - 1) == h % (2 * p)
  {
    AndOddMask(h, p - 1);
    HalfFirst(h, p);
  }

  lemma {:induction false} AndLowMask(h: nat, k: nat)
    ensures And(h, Pow2(k) - 1) == h % Pow2(k)
  {
    if k == 0 {
      Quotient(h, 1, h, 0);
    } else {
      AndLowMask(h / 2, k - 1);
      AndWiderMask(h, Pow2(k - 1));
    }
  }

  /** A mask of `k` low bits is passed exactly by the hashes that are 2^k - 1 modulo 2^k. */
  lemma LowMaskPasses(h: nat, k: nat)
    ensures AllBits(Pow2(k) - 1, h) <==> h % Pow2(k) == Pow2(k) - 1
  {
    PassesByBits(h, Pow2(k) - 1);
    AndLowMask(h, k);
  }

  // ---------------------------------------------------------------- weighted sums

  /** `v` weighted by powers of two, its last member by 1. */
  function Weighted(v: seq<int>): int {
    if v == [] then 0 else v[0] * Pow2(|v| - 1) + Weighted(v[1..])
  }

  lemma {:induction false} WeightedSnoc(v: seq<int>, x: int)
    ensures Weighted(v + [x]) == 2 * Weighted(v) + x
  {
    var all := v + [x];
    if v == [] {
      assert all[1..] == [];
    } else {
      assert all[0] == v[0] && all[1..] == v[1..] + [x];
      WeightedSnoc(v[1..], x);
      Doubled(v[0], Pow2(|v| - 1));
    }
  }

  lemma Doubled(x: int, p: int)
    ensures x * (2 * p) == 2 * (x * p)
  {}

  /** The bytes of `s` times 2^(window mod 8), each modulo 256. */
  function Shifted(window: nat, s: Bytes): seq<int> {
    seq(|s|, i requires 0 <= i < |s| => s[i] as int * Pow2(window % 8) % 256)
  }

  function Values(s: Bytes): seq<int> {
    seq(|s|, i requires 0 <= i < |s| => s[i] as int)
  }

  function Twice(b: Byte): Byte {
    b << 1
  }

  lemma TwiceValue(b: Byte)
    ensures Twice(b) as int == b as int * 2 % 256
  {}

  lemma OneMore(k: nat, b: Byte)
    requires k < 7
    ensures Removed(k + 1, b) == Twice(Removed(k, b))
  {
    if k == 0 {
    } else if k == 1 {
    } else if k == 2 {
    } else if k == 3 {
    } else if k == 4 {
    } else if k == 5 {
    } else {
      assert k == 6;
    }
  }

  lemma {:induction false} ShiftValue(k: nat, b: Byte)
    requires k < 8
    ensures Removed(k, b) as int == b as int * Pow2(k) % 256
  {
    if k == 0 {
      Unshifted(b);
    } else {
      ShiftValue(k - 1, b);
      OneMore(k - 1, b);
      TwiceModulo(b as int, Pow2(k - 1));
      TwiceAs(Removed(k - 1, b), Removed(k, b), b as int * Pow2(k - 1) % 256);
    }
  }

  lemma Unshifted(b: Byte)
    ensures Removed(0, b) as int == b as int * Pow2(0) % 256
  {}

  lemma TwiceAs(x: Byte, next: Byte, value: int)
    requires next == Twice(x) && x as int == value
    ensures next as int == value * 2 % 256
  {
    TwiceValue(x);
  }

  lemma TwiceModulo(x: int, p: int)
    ensures x * p % 256 * 2 % 256 == x * (2 * p) % 256
  {
    Doubled(x, p);
    var y := x * p;
    var r := y % 256 * 2;
    Quotient(2 * y, 256, 2 * (y / 256) + r / 256, r % 256);
  }

  /** What the update subtracts is the outgoing byte times 2^(window mod 8), modulo 256. */
  lemma RemovedIsShifted(window: nat, b: Byte)
    ensures Removed(window, b) as int == b as int * Pow2(window % 8) % 256
  {
    ShiftValue(window % 8, b);
  }

  // ---------------------------------------------------------------- the hash in closed form

  /** What the scan from `lo` to `hi` is worth: its bytes weighted by powers of two, less
      twice the weighted bytes that have left the window, shifted as the code shifts them. */
  function Worth(c: Config, data: Bytes, lo: int, hi: int): int
    requires 0 <= lo <= hi <= |data|
  {
    Weighted(Values(data[lo..hi])) - if hi - lo <= c.window then 0
                                     else 2 * Weighted(Shifted(c.window, data[lo..hi - c.window]))
  }

  lemma ValuesSnoc(data: Bytes, lo: int, hi: int)
    requires 0 <= lo < hi <= |data|
    ensures Values(data[lo..hi]) == Values(data[lo..hi - 1]) + [data[hi - 1] as int]
  {}

  lemma ShiftedSnoc(w: nat, data: Bytes, lo: int, hi: int)
    requires 0 <= lo < hi <= |data|
    ensures Shifted(w, data[lo..hi]) == Shifted(w, data[lo..hi - 1]) + [data[hi - 1] as int * Pow2(w % 8) % 256]
  {}

  /** What the step to `hi` subtracts. */
  function Outgoing(c: Config, data: Bytes, lo: nat, hi: nat): Byte
    requires lo < hi <= |data|
  {
    if hi - lo <= c.window then 0 else Removed(c.window, data[hi - 1 - c.window])
  }

  lemma HashSteps(c: Config, data: Bytes, lo: nat, hi: nat)
    requires lo < hi <= |data|
    ensures RollHash(c, data, lo, hi)
         == Push(WrappingSub(RollHash(c, data, lo, hi - 1), Outgoing(c, data, lo, hi)), data[hi - 1])
  {
    NothingRemoved(RollHash(c, data, lo, hi - 1));
  }

  lemma NothingRemoved(h: Word)
    ensures WrappingSub(h, 0) == h
  {}

  lemma WorthSteps(c: Config, data: Bytes, lo: nat, hi: nat)
    requires lo < hi <= |data|
    ensures Worth(c, data, lo, hi)
         == 2 * Worth(c, data, lo, hi - 1) + data[hi - 1] as int - 2 * Outgoing(c, data, lo, hi) as int
  {
    ValuesSnoc(data, lo, hi);
    WeightedSnoc(Values(data[lo..hi - 1]), data[hi - 1] as int);
    if hi - lo > c.window {
      var w, out := c.window, hi - c.window;
      ShiftedSnoc(w, data, lo, out);
      RemovedIsShifted(w, data[out - 1]);
      WeightedSnoc(Shifted(w, data[lo..out - 1]), data[out - 1] as int * Pow2(w % 8) % 256);
      if out - 1 == lo {
        assert Shifted(w, data[lo..lo]) == [];
      }
    }
  }

  lemma StepModulo(h: Word, worth: int, r: Byte, b: Byte)
    requires h == worth % TWO32
    ensures Push(WrappingSub(h, r), b) == (2 * worth + b as int - 2 * r as int) % TWO32
  {
    RollIsModular(h, r, b);
    var next := Push(WrappingSub(h, r), b);
    var t: int :| next == 2 * (h - r as int) + b as int - t * TWO32;
    Quotient(2 * worth + b as int - 2 * r as int, TWO32, 2 * (worth / TWO32) + t, next);
  }

  /** The hash after any part of a scan, the first window or beyond. */
  lemma {:induction false} HashInClosedForm(c: Config, data: Bytes, lo: nat, hi: nat)
    requires lo <= hi <= |data|
    ensures RollHash(c, data, lo, hi) == Worth(c, data, lo, hi) % TWO32
    decreases hi
  {
    if lo == hi {
      assert Values(data[lo..lo]) == [];
    } else {
      HashInClosedForm(c, data, lo, hi - 1);
      HashSteps(c, data, lo, hi);
      WorthSteps(c, data, lo, hi);
      StepModulo(RollHash(c, data, lo, hi - 1), Worth(c, data, lo, hi - 1), Outgoing(c, data, lo, hi), data[hi - 1]);
    }
  }

  // ---------------------------------------------------------------- the boundary law

  /** Every bit of the mask is set in the hash of the scan from `lo` to `at`. */
  ghost predicate CutsAt(c: Config, data: Bytes, lo: int, at: int)
    requires 0 <= lo <= at <= |data|
  {
    AllBits(c.mask, Worth(c, data, lo, at) % TWO32)
  }

  lemma CutsAtIsTested(c: Config, data: Bytes, lo: nat, at: nat)
    requires lo <= at <= |data|
    ensures CutsAt(c, data, lo, at) <==> Marks(c, RollHash(c, data, lo, at))
  {
    HashInClosedForm(c, data, lo, at);
    PassesByBits(RollHash(c, data, lo, at), c.mask);
  }

  /** Where a chunk ends. A rest of at most `min_chunk` bytes is one chunk. Any other ends at
      the first position, from a window past the minimum on, where every bit of the mask is
      set in the hash, or else after `max_chunk` bytes or with the data. */
  lemma BoundaryLaw(c: Config, data: Bytes, start: nat)
    requires start <= |data|
    ensures |data| - start <= c.minChunk ==> Boundary(c, data, start) == |data|
    ensures |data| - start > c.minChunk ==>
      var e, lo, limit := Boundary(c, data, start), start + c.minChunk, Min(start + c.maxChunk, |data|);
      && Min(lo + c.window, limit) <= e <= limit
      && (e < limit ==> CutsAt(c, data, lo, e))
      && forall j :: lo + c.window <= j < e ==> !CutsAt(c, data, lo, j)
  {
    if |data| - start > c.minChunk {
      var e, lo, limit := Boundary(c, data, start), start + c.minChunk, Min(start + c.maxChunk, |data|);
      BoundaryIsLeast(c, data, start);
      if e < limit {
        CutsAtIsTested(c, data, lo, e);
      }
      forall j | lo + c.window <= j < e ensures !CutsAt(c, data, lo, j) {
        CutsAtIsTested(c, data, lo, j);
      }
    }
  }

  /** With a mask of `k` low bits, as in all presets, a chunk ends where what was
      scanned is worth 2^k - 1 modulo 2^k. */
  lemma LowMaskBoundary(c: Config, data: Bytes, lo: nat, at: nat, k: nat)
    requires k <= 32 && c.mask == Pow2(k) - 1 && lo <= at <= |data|
    ensures CutsAt(c, data, lo, at) <==> Worth(c, data, lo, at) % Pow2(k) == Pow2(k) - 1
  {
    var worth := Worth(c, data, lo, at);
    LowMaskPasses(worth % TWO32, k);
    WordSize();
    Pow2Sum(k, 32 - k);
    ModuloFactor(worth, Pow2(k), Pow2(32 - k));
  }

  lemma ModuloFactor(x: int, p: int, q: int)
    requires p > 0 && q > 0
    ensures p * q > 0 && x % (p * q) % p == x % p
  {
    var d, r := x / (p * q), x % (p * q);
    assert x == (p * q) * d + r == p * (q * d + r / p) + r % p;
    Quotient(x, p, q * d + r / p, r % p);
  }
}
