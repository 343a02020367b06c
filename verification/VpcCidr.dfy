/** IPv4 prefixes in the notation of section 3.1 of RFC 4632: which addresses a prefix covers, when
    two prefixes overlap, and which prefixes a custom subnetwork may use. */
module VpcCidr {
  import opened Options

  function Pow2(n: nat): (power: nat)
    ensures power > 0
  {
    if n == 0 then 1 else 2 * Pow2(n - 1)
  }

  datatype Prefix = Prefix(address: nat, bits: nat)

  predicate WellFormed(p: Prefix) { p.bits <= 32 && p.address < Pow2(32) }

  function Size(bits: nat): nat
    requires bits <= 32
  {
    Pow2(32 - bits)
  }

  /** The address with everything after the first "bits" bits cleared. */
  function Mask(address: nat, bits: nat): nat
    requires bits <= 32
  {
    RemainderIsLess(address, Size(bits));
    address - address % Size(bits)
  }

  lemma RemainderIsLess(n: nat, divisor: nat)
    requires divisor > 0
    ensures n % divisor <= n
  {}

  predicate IsMasked(p: Prefix)
    requires p.bits <= 32
  {
    Mask(p.address, p.bits) == p.address
  }

  predicate Covers(p: Prefix, address: nat)
    requires p.bits <= 32
  {
    Mask(address, p.bits) == Mask(p.address, p.bits)
  }

  /** netip.Prefix.Overlaps: compare the addresses up to the shorter prefix. */
  predicate Overlaps(p: Prefix, q: Prefix)
    requires p.bits <= 32 && q.bits <= 32
  {
    var bits := if p.bits <= q.bits then p.bits else q.bits;
    bits == 0 || Mask(p.address, bits) == Mask(q.address, bits)
  }

  lemma {:induction false} Pow2Splits(m: nat, n: nat)
    ensures Pow2(m + n) == Pow2(m) * Pow2(n)
  {
    if m > 0 {
      Pow2Splits(m - 1, n);
      assert Pow2(m + n) == 2 * (Pow2(m - 1) * Pow2(n));
    }
  }

  /** Clearing more bits afterwards is clearing them at once. */
  lemma MaskOfMask(address: nat, short: nat, long: nat)
    requires short <= long <= 32
    ensures Mask(Mask(address, long), short) == Mask(address, short)
  {
    var t, k := Size(long), Pow2(long - short);
    Pow2Splits(long - short, 32 - long);
    assert Size(short) == k * t;
    DivideTwice(address, t, k, Size(short));
  }

  lemma DivideTwice(a: nat, t: nat, k: nat, s: nat)
    requires t > 0 && s > 0 && s == k * t
    ensures (a - a % t) - (a - a % t) % s == a - a % s
  {
    var q, r := a / s, a % s;
    Parts(a, t, k, s, q, r, r / t, r % t);
  }

  lemma Parts(a: nat, t: nat, k: nat, s: nat, q: nat, r: nat, j: nat, u: nat)
    requires t > 0 && s > 0 && s == k * t
    requires a == s * q + r && r < s && r == t * j + u && u < t
    ensures a % t == u && (a - u) % s == t * j && a - u - t * j == a - r
  {
    assert s * q == t * (k * q);
    assert t * (k * q) + t * j == t * (k * q + j);
    RemainderIs(a, t, k * q + j, u);
    RemainderIs(a - u, s, q, t * j);
  }

  lemma QuotientIsUnique(d: nat, q: nat, r: nat, q': nat, r': nat)
    requires d > 0 && r < d && r' < d && d * q + r == d * q' + r'
    ensures r == r'
  {
    if q < q' { Gap(d, q, q'); } else if q' < q { Gap(d, q', q); }
  }

  lemma Gap(d: nat, q: nat, q': nat)
    requires q < q'
    ensures d * q + d <= d * q'
  {
    var x := q' - q - 1;
    assert q' == q + 1 + x;
    assert d * (q + 1 + x) == d * q + d + d * x;
  }

  lemma RemainderIs(a: nat, d: nat, q: nat, r: nat)
    requires d > 0 && a == d * q + r && r < d
    ensures a % d == r
  {
    var q', r' := a / d, a % d;
    assert d * q' + r' == a;
    QuotientIsUnique(d, q, r, q', r');
  }

  lemma MaskNothing(address: nat)
    requires address < Pow2(32)
    ensures Mask(address, 0) == 0
  {
    RemainderIs(address, Pow2(32), 0, address);
  }

  /** The test on addresses is the statement about address sets, and overlapping prefixes are nested:
      the shorter one covers everything the longer one does. */
  lemma OverlapsIff(p: Prefix, q: Prefix)
    requires WellFormed(p) && WellFormed(q)
    ensures Overlaps(p, q) <==> exists address :: Covers(p, address) && Covers(q, address)
    ensures p.bits <= q.bits && Overlaps(p, q) ==> forall address: nat :: address < Pow2(32) && Covers(q, address) ==>
      Covers(p, address)
  {
    if p.bits <= q.bits { OverlapsIffOrdered(p, q); } else { OverlapsIffOrdered(q, p); }
  }

  lemma OverlapsIffOrdered(p: Prefix, q: Prefix)
    requires WellFormed(p) && WellFormed(q) && p.bits <= q.bits
    ensures Overlaps(p, q) <==> exists address :: Covers(p, address) && Covers(q, address)
    ensures Overlaps(p, q) <==> exists address :: Covers(q, address) && Covers(p, address)
    ensures Overlaps(p, q) ==> forall address: nat :: address < Pow2(32) && Covers(q, address) ==> Covers(p, address)
  {
    if p.bits == 0 { MaskNothing(p.address); MaskNothing(q.address); }
    if Overlaps(p, q) {
      assert Covers(p, q.address) && Covers(q, q.address);
      forall address: nat | address < Pow2(32) && Covers(q, address) ensures Covers(p, address) {
        MaskOfMask(address, p.bits, q.bits);
        MaskOfMask(q.address, p.bits, q.bits);
      }
    }
    if address :| Covers(p, address) && Covers(q, address) {
      MaskOfMask(address, p.bits, q.bits);
      MaskOfMask(q.address, p.bits, q.bits);
    }
  }

  /** A masked prefix covers exactly the run of addresses that starts at its own. */
  lemma CoversIsInterval(p: Prefix, address: nat)
    requires p.bits <= 32 && IsMasked(p)
    ensures Covers(p, address) <==> p.address <= address < p.address + Size(p.bits)
  {
    var s := Size(p.bits);
    var q := p.address / s;
    assert p.address == s * q;
    if p.address <= address < p.address + s {
      RemainderIs(address, s, q, address - p.address);
    }
  }

  // ---------------------------------------------------------------------------------------------
  // Custom subnetworks
  // ---------------------------------------------------------------------------------------------

  /** What netip.ParsePrefix makes of a text, and whether printing it gives the text back. */
  datatype Cidr = NotAPrefix | Prefix6 | Prefix4(prefix: Prefix, canonicalText: bool)

  predicate ValidCidr(cidr: Cidr) { cidr.Prefix4? ==> WellFormed(cidr.prefix) }

  /** 0.0.0.0/8, 127.0.0.0/8, 169.254.0.0/16, 224.0.0.0/4 and 240.0.0.0/4. */
  const PROHIBITED := [Prefix(0, 8), Prefix(127 * 0x1000000, 8), Prefix(0xA9FE0000, 16),
                       Prefix(0xE0000000, 4), Prefix(0xF0000000, 4)]

  /** NormalizeVPCIPv4Prefix. */
  method Normalize(cidr: Cidr) returns (prefix: Option<Prefix>)
    requires ValidCidr(cidr)
    ensures prefix == NormalizeSpec(cidr)
  {
    if !cidr.Prefix4? {
      return None;
    }
    var p := cidr.prefix;
    if !IsMasked(p) || !cidr.canonicalText || p.bits < 8 || p.bits > 29 {
      return None;
    }
    for k := 0 to |PROHIBITED|
      invariant forall i :: 0 <= i < k ==> !Overlaps(p, PROHIBITED[i])
    {
      if Overlaps(p, PROHIBITED[k]) {
        return None;
      }
    }
    return Some(p);
  }

  function NormalizeSpec(cidr: Cidr): Option<Prefix>
    requires ValidCidr(cidr)
  {
    if && cidr.Prefix4? && cidr.canonicalText && IsMasked(cidr.prefix) && 8 <= cidr.prefix.bits <= 29
       && forall k :: 0 <= k < |PROHIBITED| ==> !Overlaps(cidr.prefix, PROHIBITED[k])
    then Some(cidr.prefix) else None
  }

  predicate InProhibitedRange(address: nat) {
    || address < 0x1000000
    || 127 * 0x1000000 <= address < 128 * 0x1000000
    || 0xA9FE0000 <= address < 0xA9FF0000
    || 0xE0000000 <= address < 0x100000000
  }

  lemma SmallPowers()
    ensures Pow2(16) == 0x10000 && Pow2(24) == 0x1000000 && Pow2(28) == 0x10000000 && Pow2(32) == 0x100000000
  {
    assert Pow2(8) == 256;
    Pow2Splits(8, 8);
    Pow2Splits(16, 8);
    Pow2Splits(24, 4);
    Pow2Splits(24, 8);
  }

  lemma ProhibitedAre(address: nat)
    ensures forall k :: 0 <= k < |PROHIBITED| ==> WellFormed(PROHIBITED[k]) && IsMasked(PROHIBITED[k])
    ensures InProhibitedRange(address) <==> exists k :: 0 <= k < |PROHIBITED| && Covers(PROHIBITED[k], address)
  {
    SmallPowers();
    assert forall k :: 0 <= k < |PROHIBITED| ==> WellFormed(PROHIBITED[k]) && IsMasked(PROHIBITED[k]);
    forall k | 0 <= k < |PROHIBITED|
      ensures Covers(PROHIBITED[k], address)
              <==> PROHIBITED[k].address <= address < PROHIBITED[k].address + Size(PROHIBITED[k].bits)
    {
      CoversIsInterval(PROHIBITED[k], address);
    }
    assert Covers(PROHIBITED[0], address) <==> address < 0x1000000;
    assert Covers(PROHIBITED[1], address) <==> 127 * 0x1000000 <= address < 128 * 0x1000000;
    assert Covers(PROHIBITED[2], address) <==> 0xA9FE0000 <= address < 0xA9FF0000;
    assert Covers(PROHIBITED[3], address) <==> 0xE0000000 <= address < 0xF0000000;
    assert Covers(PROHIBITED[4], address) <==> 0xF0000000 <= address < 0x100000000;
  }

  /** A canonical masked prefix of /8 to /29 is accepted exactly when none of its addresses lies in a
      prohibited range. */
  lemma NormalizeIff(cidr: Cidr)
    requires ValidCidr(cidr) && cidr.Prefix4? && cidr.canonicalText && IsMasked(cidr.prefix)
      && 8 <= cidr.prefix.bits <= 29
    ensures NormalizeSpec(cidr) == Some(cidr.prefix) <==> forall address :: Covers(cidr.prefix, address) ==>
      !InProhibitedRange(address)
    ensures NormalizeSpec(cidr) == None
      <==> exists address :: Covers(cidr.prefix, address) && InProhibitedRange(address)
  {
    var p := cidr.prefix;
    ProhibitedAre(0);
    forall k | 0 <= k < |PROHIBITED| ensures Overlaps(p, PROHIBITED[k])
      <==> exists a :: Covers(p, a) && Covers(PROHIBITED[k], a) {
      OverlapsIff(p, PROHIBITED[k]);
    }
    forall address | Covers(p, address)
      ensures InProhibitedRange(address) <==> exists k :: 0 <= k < |PROHIBITED| && Covers(PROHIBITED[k], address)
    {
      ProhibitedAre(address);
    }
  }
}
