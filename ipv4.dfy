/** IPv4 addresses and CIDR prefixes (section 3.1 of RFC 4632), as the
    `IPAddr` objects of ddsnet4u.rb use them. An address is a value below
    2^32; a prefix is a network address whose host bits are clear, plus a
    mask length between 0 and 32. Bitwise AND with the netmask of length
    `len` clears the low 32 - len bits; here that is written out one bit at
    a time on integers (ClearLow), which keeps every proof step linear. */
module IPv4 {

  /** An IPv4 address. */
  type Addr = x: int | 0 <= x < 0x1_0000_0000

  /** A mask length. */
  type Len = n: int | 0 <= n <= 32

  function Pow2(n: nat): (r: nat)
    ensures r >= 1
  {
    if n == 0 then 1 else 2 * Pow2(n - 1)
  }

  /** `a` shifted right by `k` bits: `k` halvings, each dropping the
      lowest bit. */
  function Shift(a: nat, k: nat): nat {
    if k == 0 then a else Shift(a / 2, k - 1)
  }

  /** `a` with its low `k` bits cleared: the start of the block of 2^k
      addresses that holds `a` (aligned: ClearLowAligned). */
  function ClearLow(a: nat, k: nat): (r: nat)
    ensures r <= a < r + Pow2(k)
  {
    if k == 0 then a else 2 * ClearLow(a / 2, k - 1)
  }

  /** The number of addresses a prefix of length `len` covers. */
  function Span(len: Len): (s: nat)
    ensures s >= 1
  {
    Pow2(32 - len)
  }

  /** `a & mask(len)`. */
  function Masked(a: Addr, len: Len): (r: Addr)
    ensures r <= a < r + Span(len)
  {
    ClearLow(a, 32 - len)
  }

  /** A CIDR prefix: network address plus mask length. */
  datatype Prefix = Prefix(network: Addr, len: Len) {

    /** `network & mask(len) == network`: the host bits are all clear. */
    predicate Normal() {
      Masked(network, len) == network
    }

    /** The last address the prefix covers (`network | ~mask(len)`). */
    function Last(): int {
      network + Span(len) - 1
    }
  }

  /** `IPAddr.new("a.b.c.d/len")`: the declared address with its host bits
      masked off; the declared address lies inside the result. */
  function MakePrefix(a: Addr, len: Len): (p: Prefix)
    ensures p.len == len && p.Normal()
    ensures p.network <= a <= p.Last()
  {
    ClearLowIdempotent(a, 32 - len);
    Prefix(Masked(a, len), len)
  }

  /** A host address treated as a /32 prefix. */
  function HostPrefix(a: Addr): (p: Prefix)
    ensures p.Normal() && p.len == 32
    ensures p.network == a && p.Last() == a
  {
    Prefix(a, 32)
  }

  /** `p.include?(q)` for two IPv4 prefixes: the address range of `q` lies
      inside that of `p`. */
  predicate Includes(p: Prefix, q: Prefix) {
    p.network <= q.network && q.Last() <= p.Last()
  }

  /** A normal prefix includes a host address exactly when masking the
      address to the prefix's length yields the prefix's network. */
  lemma IncludesHost(p: Prefix, a: Addr)
    requires p.Normal()
    ensures Includes(p, HostPrefix(a)) <==> Masked(a, p.len) == p.network
  {
    if Includes(p, HostPrefix(a)) {
      ClearLowUnique(p.network, a, 32 - p.len);
    }
  }

  /** Two normal prefixes that both include one host are nested: the
      shorter includes the longer. */
  lemma Nested(p: Prefix, q: Prefix, a: Addr)
    requires p.Normal() && q.Normal()
    requires Includes(p, HostPrefix(a)) && Includes(q, HostPrefix(a))
    requires q.len <= p.len
    ensures Includes(q, p)
  {
    IncludesHost(p, a);
    IncludesHost(q, a);
    ClearLowBlocksNest(a, 32 - p.len, 32 - q.len);
  }

  /** `a & mask(len)` is `a` rounded down to a multiple of the block size
      2^(32-len): the start of the aligned block that holds `a`. */
  lemma MaskedAligned(a: Addr, len: Len)
    ensures Masked(a, len) == (a / Span(len)) * Span(len)
  {
    ClearLowAligned(a, 32 - len);
    ShiftIsDivision(a, 32 - len);
  }

  /** Clearing the low `k` bits is shifting right by `k` and back. */
  lemma {:induction false} ClearLowAligned(a: nat, k: nat)
    ensures ClearLow(a, k) == Shift(a, k) * Pow2(k)
  {
    if k > 0 {
      ClearLowAligned(a / 2, k - 1);
      assert 2 * (Shift(a / 2, k - 1) * Pow2(k - 1)) == Shift(a, k) * (2 * Pow2(k - 1));
    }
  }

  /** Shifting right by `k` bits is dividing by 2^k. */
  lemma ShiftIsDivision(a: nat, k: nat)
    ensures Shift(a, k) == a / Pow2(k)
  {
    var q := Shift(a, k);
    ClearLowAligned(a, k);
    DivisionUnique(a, Pow2(k), q);
  }

  /** The quotient is the one multiple of `d` whose block holds `a`. */
  lemma DivisionUnique(a: nat, d: nat, q: nat)
    requires d >= 1
    requires q * d <= a < q * d + d
    ensures q == a / d
  {
    var r := a / d;
    assert r * d <= a < r * d + d;
    if q < r {
      MulStep(q, r, d);
    } else if r < q {
      MulStep(r, q, d);
    }
  }

  /** A larger multiplier gives a product at least one `d` larger. */
  lemma {:induction false} MulStep(x: nat, y: nat, d: nat)
    requires x < y
    ensures x * d + d <= y * d
    decreases y
  {
    assert y * d == (y - 1) * d + d;
    if x < y - 1 {
      MulStep(x, y - 1, d);
    }
  }

  /** Clearing bits that are already clear changes nothing. */
  lemma {:induction false} ClearLowIdempotent(a: nat, k: nat)
    ensures ClearLow(ClearLow(a, k), k) == ClearLow(a, k)
  {
    if k > 0 {
      var c := ClearLow(a / 2, k - 1);
      assert (2 * c) / 2 == c;
      ClearLowIdempotent(a / 2, k - 1);
    }
  }

  /** A multiple of 2^k has no low bits to clear. */
  lemma {:induction false} ClearLowMultiple(j: nat, k: nat)
    ensures ClearLow(j * Pow2(k), k) == j * Pow2(k)
  {
    if k > 0 {
      var x := j * Pow2(k);
      assert x == 2 * (j * Pow2(k - 1));
      assert x / 2 == j * Pow2(k - 1);
      ClearLowMultiple(j, k - 1);
    }
  }

  /** An aligned block of 2^k addresses that holds `a` is the one
      ClearLow(a, k) starts. */
  lemma {:induction false} ClearLowUnique(n: nat, a: nat, k: nat)
    requires ClearLow(n, k) == n
    requires n <= a < n + Pow2(k)
    ensures ClearLow(a, k) == n
  {
    if k > 0 {
      var c := ClearLow(n / 2, k - 1);
      assert n == 2 * c;
      assert n / 2 == c;
      ClearLowUnique(n / 2, a / 2, k - 1);
    }
  }

  /** For j <= k, the aligned 2^j block holding `a` lies inside the aligned
      2^k block holding it. */
  lemma {:induction false} ClearLowBlocksNest(a: nat, j: nat, k: nat)
    requires j <= k
    ensures ClearLow(a, k) <= ClearLow(a, j)
    ensures ClearLow(a, j) + Pow2(j) <= ClearLow(a, k) + Pow2(k)
  {
    if j > 0 {
      ClearLowBlocksNest(a / 2, j - 1, k - 1);
    }
  }
}
