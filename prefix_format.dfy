/** The "net/len" rendering of a prefix used by ddsnet4u.rb
    (`ipaddr_to_prefix` and `stringify_ipaddr`, which are the same): the
    network address in dotted-quad decimal, a slash, and the mask length in
    decimal, e.g. "10.1.0.0/24". Route prefixes are compared as these
    strings, so what matters is that the rendering loses nothing:
    PrefixStringInjective. */
module PrefixFormat {
  import opened IPv4

  predicate IsDigit(c: char) {
    '0' <= c <= '9'
  }

  predicate AllDigits(s: string) {
    forall i :: 0 <= i < |s| ==> IsDigit(s[i])
  }

  function DigitChar(d: nat): (c: char)
    requires d < 10
    ensures IsDigit(c)
  {
    "0123456789"[d]
  }

  function DigitValue(c: char): (d: nat)
    requires IsDigit(c)
    ensures d < 10
  {
    (c as int) - ('0' as int)
  }

  /** The decimal digits of `n`, without leading zeros. */
  function Decimal(n: nat): (s: string)
    ensures |s| >= 1 && AllDigits(s)
  {
    if n < 10 then [DigitChar(n)] else Decimal(n / 10) + [DigitChar(n % 10)]
  }

  /** The number a string of digits denotes. */
  function DecimalValue(s: string): nat
    requires AllDigits(s)
  {
    if s == [] then 0 else 10 * DecimalValue(s[..|s| - 1]) + DigitValue(s[|s| - 1])
  }

  lemma {:induction false} DecimalRoundTrip(n: nat)
    ensures DecimalValue(Decimal(n)) == n
  {
    var s := Decimal(n);
    if n >= 10 {
      assert s[..|s| - 1] == Decimal(n / 10);
      DecimalRoundTrip(n / 10);
    }
  }

  /** Distinct numbers have distinct decimal renderings. */
  lemma DecimalInjective(m: nat, n: nat)
    requires Decimal(m) == Decimal(n)
    ensures m == n
  {
    DecimalRoundTrip(m);
    DecimalRoundTrip(n);
  }

  /** The four octets of an address, most significant first. */
  function Octets(a: Addr): (o: seq<nat>)
    ensures |o| == 4 && forall i :: 0 <= i < 4 ==> o[i] < 256
    ensures a == ((o[0] * 256 + o[1]) * 256 + o[2]) * 256 + o[3]
  {
    [a / 0x100_0000, (a / 0x1_0000) % 256, (a / 256) % 256, a % 256]
  }

  /** `IPAddr#to_s` for IPv4: "a.b.c.d". */
  function DottedQuad(a: Addr): string {
    var o := Octets(a);
    Decimal(o[0]) + ("." + (Decimal(o[1]) + ("." + (Decimal(o[2]) + ("." + Decimal(o[3]))))))
  }

  /** `"#{ipaddr}/#{ipaddr.prefix}"` for a prefix. */
  function PrefixString(p: Prefix): string {
    DottedQuad(p.network) + ("/" + Decimal(p.len))
  }

  /** The length of the run of digits a string starts with. */
  function DigitRun(s: string): (n: nat)
    ensures n <= |s|
  {
    if s == [] || !IsDigit(s[0]) then 0 else 1 + DigitRun(s[1..])
  }

  lemma {:induction false} DigitRunStops(x: string, c: char, u: string)
    requires AllDigits(x) && !IsDigit(c)
    ensures DigitRun(x + ([c] + u)) == |x|
  {
    if x != [] {
      assert (x + ([c] + u))[1..] == x[1..] + ([c] + u);
      DigitRunStops(x[1..], c, u);
    }
  }

  /** A digit string followed by a non-digit separator can be split off
      uniquely. */
  lemma SplitAtSeparator(x: string, y: string, c: char, u: string, v: string)
    requires AllDigits(x) && AllDigits(y) && !IsDigit(c)
    requires x + ([c] + u) == y + ([c] + v)
    ensures x == y && u == v
  {
    var l := x + ([c] + u);
    DigitRunStops(x, c, u);
    DigitRunStops(y, c, v);
    assert x == l[..|x|] && y == l[..|y|];
    assert u == l[|x| + 1..] && v == l[|y| + 1..];
  }

  /** PrefixString with its pieces spelled out, one separator at a time. */
  lemma PrefixStringPieces(p: Prefix)
    ensures var o := Octets(p.network);
      PrefixString(p) == Decimal(o[0]) + ("." + (Decimal(o[1]) + ("." + (Decimal(o[2]) + ("." + (Decimal(o[3]) + ("/" + Decimal(p.len))))))))
  {
  }

  /** Equal "net/len" strings come only from equal prefixes, and equal
      prefixes give equal strings. */
  lemma PrefixStringInjective(p: Prefix, q: Prefix)
    ensures PrefixString(p) == PrefixString(q) <==> p == q
  {
    if PrefixString(p) == PrefixString(q) {
      var o, w := Octets(p.network), Octets(q.network);
      PrefixStringPieces(p);
      PrefixStringPieces(q);
      var tp := "/" + Decimal(p.len);
      var tq := "/" + Decimal(q.len);
      var rp3, rq3 := Decimal(o[3]) + tp, Decimal(w[3]) + tq;
      var rp2, rq2 := Decimal(o[2]) + ("." + rp3), Decimal(w[2]) + ("." + rq3);
      var rp1, rq1 := Decimal(o[1]) + ("." + rp2), Decimal(w[1]) + ("." + rq2);
      SplitAtSeparator(Decimal(o[0]), Decimal(w[0]), '.', rp1, rq1);
      SplitAtSeparator(Decimal(o[1]), Decimal(w[1]), '.', rp2, rq2);
      SplitAtSeparator(Decimal(o[2]), Decimal(w[2]), '.', rp3, rq3);
      SplitAtSeparator(Decimal(o[3]), Decimal(w[3]), '/', Decimal(p.len), Decimal(q.len));
      DecimalInjective(o[0], w[0]);
      DecimalInjective(o[1], w[1]);
      DecimalInjective(o[2], w[2]);
      DecimalInjective(o[3], w[3]);
      DecimalInjective(p.len, q.len);
    }
  }
}
