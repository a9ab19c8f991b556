/**
 * IP networks and addresses as numbers, the way Python's `ipaddress`
 * represents them: a network is a family, a network address with its host
 * bits cleared, and a prefix length; an address is a family and a value.
 * Containment is the CIDR rule of section 3.1 of RFC 4632: an address lies
 * in a network when masking it to the network's prefix length gives the
 * network address.
 */
module IpBase {
  import opened Wrappers

  datatype Version = V4 | V6

  /** The number of bits in an address of the family (`_max_prefixlen`). */
  function Width(v: Version): nat {
    match v
    case V4 => 32
    case V6 => 128
  }

  function Pow2(k: nat): (r: nat)
    ensures r >= 1
  {
    if k == 0 then 1 else 2 * Pow2(k - 1)
  }

  lemma {:induction false} Pow2Monotone(j: nat, k: nat)
    requires j <= k
    ensures Pow2(j) <= Pow2(k)
  {
    if j < k {
      Pow2Monotone(j, k - 1);
    }
  }

  /** An address: `ipaddress.IPv4Address` or `IPv6Address` with any scope id dropped, since containment ignores it. */
  datatype Address = Address(version: Version, value: nat)

  predicate ValidAddress(a: Address) {
    a.value < Pow2(Width(a.version))
  }

  /** A network: `ipaddress.IPv4Network` or `IPv6Network`. */
  datatype Net = Net(version: Version, addr: nat, prefix: nat)

  /** The number of addresses a network of this prefix length spans. */
  function Span(prefix: nat, width: nat): (r: nat)
    requires prefix <= width
    ensures r >= 1
  {
    Pow2(width - prefix)
  }

  /** `value & netmask`: the value with its `width - prefix` low (host) bits cleared. */
  function MaskBits(value: nat, prefix: nat, width: nat): (r: nat)
    requires prefix <= width
    ensures r <= value && value - r < Span(prefix, width)
  {
    var d := Span(prefix, width);
    RoundDown(value, d);
    value - value % d
  }

  /** A masked value is a multiple of the span: its host bits are zero. */
  lemma MaskMultiple(value: nat, prefix: nat, width: nat)
    requires prefix <= width
    ensures MaskBits(value, prefix, width) % Span(prefix, width) == 0
  {
    RoundDown(value, Span(prefix, width));
  }

  /** Rounding down to a multiple of `d` gives a multiple of `d`. */
  lemma RoundDown(x: nat, d: nat)
    requires d >= 1
    ensures x % d <= x
    ensures (x - x % d) % d == 0
  {
    var q := x / d;
    assert x - x % d == q * d;
    DivModUnique(q, d, 0);
  }

  /** A number below `d` is its own remainder. */
  lemma ModBelow(x: nat, d: nat)
    requires x < d
    ensures x % d == x
  {
    DivModUnique(0, d, x);
  }

  /** A well-formed network: prefix within the family's width, address in range, host bits zero. */
  predicate ValidNet(n: Net) {
    && n.prefix <= Width(n.version)
    && n.addr < Pow2(Width(n.version))
    && MaskBits(n.addr, n.prefix, Width(n.version)) == n.addr
  }

  /** `address in network`: same family, and masking the address gives the network address. */
  predicate Contains(n: Net, a: Address) {
    && a.version == n.version
    && n.prefix <= Width(n.version)
    && MaskBits(a.value, n.prefix, Width(n.version)) == n.addr
  }

  /** The network of prefix `prefix` around `value`, as `ip_network(..., strict=False)` builds it. */
  function NetOf(v: Version, value: nat, prefix: nat): (n: Net)
    requires value < Pow2(Width(v)) && prefix <= Width(v)
    ensures n.prefix == prefix && n.version == v
  {
    Net(v, MaskBits(value, prefix, Width(v)), prefix)
  }

  /** The network built around an address is well-formed: `NetOf` clears exactly the host bits. */
  lemma NetOfValid(v: Version, value: nat, prefix: nat)
    requires value < Pow2(Width(v)) && prefix <= Width(v)
    ensures ValidNet(NetOf(v, value, prefix))
  {
    MaskIdempotent(value, prefix, Width(v));
  }

  /** The network built around an address contains that address. */
  lemma NetOfContains(v: Version, value: nat, prefix: nat)
    requires value < Pow2(Width(v)) && prefix <= Width(v)
    ensures Contains(NetOf(v, value, prefix), Address(v, value))
  {
  }

  /** Masking twice is masking once. */
  lemma MaskIdempotent(value: nat, prefix: nat, width: nat)
    requires prefix <= width
    ensures MaskBits(MaskBits(value, prefix, width), prefix, width) == MaskBits(value, prefix, width)
  {
    MaskMultiple(value, prefix, width);
  }

  /** A multiple of `d` plus a remainder below `d` splits back into the two. */
  lemma DivModUnique(q: nat, d: nat, r: nat)
    requires r < d
    ensures (q * d + r) / d == q && (q * d + r) % d == r
  {
    var x := q * d + r;
    var q', r' := x / d, x % d;
    assert x == q' * d + r';
    if q' > q {
      MulLe(q + 1, q', d);
      assert false;
    } else if q' < q {
      MulLe(q' + 1, q, d);
      assert false;
    }
  }

  lemma MulLe(a: nat, c: nat, b: nat)
    requires a <= c
    ensures a * b <= c * b
  {
  }

  /**
   * Containment is range membership: an address lies in a valid network
   * exactly when it is between the network address and the network
   * address plus the span.
   */
  lemma ContainsRange(n: Net, a: Address)
    requires ValidNet(n) && a.version == n.version
    ensures Contains(n, a) <==> n.addr <= a.value < n.addr + Span(n.prefix, Width(n.version))
  {
    var d := Span(n.prefix, Width(n.version));
    RoundDown(n.addr, d);
    if n.addr <= a.value < n.addr + d {
      RoundDownInRange(n.addr, a.value, d);
    }
  }

  /** A value in `[m, m + d)`, for `m` a multiple of `d`, rounds down to `m`. */
  lemma RoundDownInRange(m: nat, v: nat, d: nat)
    requires d >= 1 && m % d == 0 && m <= v < m + d
    ensures v - v % d == m
  {
    DivModParts(m, d);
    DivModUnique(m / d, d, v - m);
  }

  /** A `/0` network contains every address of its family. */
  lemma ContainsAllAtZero(n: Net, a: Address)
    requires ValidNet(n) && n.prefix == 0
    requires ValidAddress(a) && a.version == n.version
    ensures Contains(n, a)
  {
    AllAtZero(n.addr, a.value, Width(n.version));
  }

  lemma AllAtZero(addr: nat, value: nat, w: nat)
    requires addr < Pow2(w) && MaskBits(addr, 0, w) == addr
    requires value < Pow2(w)
    ensures MaskBits(value, 0, w) == addr
  {
    MaskAllBits(addr, w);
    MaskAllBits(value, w);
  }

  /** Masking an in-range value to prefix length 0 clears it. */
  lemma MaskAllBits(value: nat, width: nat)
    requires value < Pow2(width)
    ensures MaskBits(value, 0, width) == 0
  {
    ModBelow(value, Span(0, width));
  }

  /** A full-length network (`/32`, `/128`) contains its own address and no other. */
  lemma ContainsOnlySelfAtFull(n: Net, a: Address)
    requires ValidNet(n) && n.prefix == Width(n.version)
    requires a.version == n.version
    ensures Contains(n, a) <==> a.value == n.addr
  {
    assert Span(n.prefix, Width(n.version)) == 1;
  }

  /** `b ** k`. */
  function Pow(b: nat, k: nat): (r: nat)
    ensures b >= 1 ==> r >= 1
  {
    if k == 0 then 1 else Pow(b, k - 1) * b
  }

  /** The number written by the digits `ds` in base `b`, most significant first. */
  function BaseValue(ds: seq<nat>, b: nat): nat {
    if ds == [] then 0 else BaseValue(ds[..|ds| - 1], b) * b + ds[|ds| - 1]
  }

  /** The `k` lowest base-`b` digits of `x`, most significant first (`x.to_bytes(k, 'big')` for `b == 256`). */
  function Digits(x: nat, b: nat, k: nat): (ds: seq<nat>)
    requires b >= 2
    ensures |ds| == k && forall i :: 0 <= i < k ==> ds[i] < b
  {
    if k == 0 then [] else Digits(x / b, b, k - 1) + [x % b]
  }

  lemma DivModParts(x: nat, b: nat)
    requires b >= 1
    ensures x == (x / b) * b + x % b
  {
  }

  /** One more digit below the base keeps a number below the next power. */
  lemma AppendDigitBound(v: nat, d: nat, b: nat, p: nat)
    requires v < p && d < b
    ensures v * b + d < p * b
  {
    MulLe(v + 1, p, b);
    assert (v + 1) * b == v * b + b;
  }

  /** Dropping the last digit of a number below `p * b` leaves one below `p`. */
  lemma DropDigitBound(x: nat, b: nat, p: nat)
    requires b >= 1 && x < p * b
    ensures x / b < p
  {
    var q := x / b;
    assert x == q * b + x % b;
    if q >= p {
      MulLe(p, q, b);
      assert false;
    }
  }

  /** Digits all below the base write a number below `b ** |ds|`. */
  lemma {:induction false} BaseValueBound(ds: seq<nat>, b: nat)
    requires b >= 2 && forall i :: 0 <= i < |ds| ==> ds[i] < b
    ensures BaseValue(ds, b) < Pow(b, |ds|)
  {
    if ds != [] {
      var init := ds[..|ds| - 1];
      BaseValueBound(init, b);
      AppendDigitBound(BaseValue(init, b), ds[|ds| - 1], b, Pow(b, |init|));
    }
  }

  /** The last digit is the remainder and the others are the digits of the quotient. */
  lemma DigitsLast(x: nat, b: nat, k: nat)
    requires b >= 2 && k > 0
    ensures Digits(x, b, k)[..k - 1] == Digits(x / b, b, k - 1)
    ensures Digits(x, b, k)[k - 1] == x % b
  {
  }

  lemma RoundTripStep(x: nat, b: nat, k: nat)
    requires b >= 2 && k > 0
    requires BaseValue(Digits(x / b, b, k - 1), b) == x / b
    ensures BaseValue(Digits(x, b, k), b) == x
  {
    DigitsLast(x, b, k);
    DivModParts(x, b);
  }

  /** Writing a number below `b ** k` in `k` digits and reading them back gives the number. */
  lemma {:induction false} DigitsRoundTrip(x: nat, b: nat, k: nat)
    requires b >= 2 && x < Pow(b, k)
    ensures BaseValue(Digits(x, b, k), b) == x
  {
    if k > 0 {
      var p := Pow(b, k - 1);
      assert x < p * b;
      DropDigitBound(x, b, p);
      DigitsRoundTrip(x / b, b, k - 1);
      RoundTripStep(x, b, k);
    }
  }

  /** Reading digits and writing the number back in as many digits gives the digits. */
  lemma {:induction false} ValueDigitsRoundTrip(ds: seq<nat>, b: nat)
    requires b >= 2 && forall i :: 0 <= i < |ds| ==> ds[i] < b
    ensures Digits(BaseValue(ds, b), b, |ds|) == ds
  {
    if ds != [] {
      var init := ds[..|ds| - 1];
      var v := BaseValue(init, b);
      DivModUnique(v, b, ds[|ds| - 1]);
      ValueDigitsRoundTrip(init, b);
      assert ds == init + [ds[|ds| - 1]];
    }
  }

  lemma {:induction false} Pow2Add(a: nat, b: nat)
    ensures Pow2(a + b) == Pow2(a) * Pow2(b)
  {
    if a > 0 {
      Pow2Add(a - 1, b);
    }
  }

  /** `(2 ** bits) ** k == 2 ** (bits * k)`. */
  lemma {:induction false} PowOfPow2(bits: nat, k: nat)
    ensures Pow(Pow2(bits), k) == Pow2(bits * k)
  {
    if k > 0 {
      PowOfPow2(bits, k - 1);
      assert bits * k == bits * (k - 1) + bits;
      Pow2Add(bits * (k - 1), bits);
    }
  }

  /** Four bytes make an IPv4 address and eight 16-bit groups an IPv6 one. */
  lemma AddressSizes()
    ensures Pow(256, 4) == Pow2(32)
    ensures Pow(0x1_0000, 8) == Pow2(128)
  {
    assert Pow2(8) == 256;
    Pow2Add(8, 8);
    PowOfPow2(8, 4);
    PowOfPow2(16, 8);
  }

  /** The number of trailing zero bits of a positive number. */
  function TrailingZeros(n: nat): nat
    requires n > 0
  {
    if n % 2 == 1 then 0 else 1 + TrailingZeros(n / 2)
  }

  /** `v >> k`. */
  function ShiftRight(v: nat, k: nat): nat {
    if k == 0 then v else ShiftRight(v / 2, k - 1)
  }

  /**
   * `_count_righthand_zero_bits(number, bits)`: the trailing zero bits of
   * `number`, which `(~number & (number - 1)).bit_length()` computes, capped
   * at `bits`; `bits` for zero.
   */
  function CountRightZeros(number: nat, bits: nat): (t: nat)
    ensures t <= bits
  {
    if number == 0 then bits
    else if TrailingZeros(number) < bits then TrailingZeros(number)
    else bits
  }

  /**
   * `_prefix_from_ip_int`: the prefix length of a netmask of the form
   * `1...10...0` (`width` bits in all), or `None` when the ones and zeros
   * are mixed.
   */
  function PrefixFromIpInt(v: nat, width: nat): (r: Option<nat>)
    ensures r.Some? ==> r.value <= width
  {
    var tz := CountRightZeros(v, width);
    var prefix := width - tz;
    var leadingOnes := ShiftRight(v, tz);
    if leadingOnes != Pow2(prefix) - 1 then None else Some(prefix)
  }

  /** The netmask of prefix length `p`: `p` one bits followed by `width - p` zero bits. */
  function Netmask(p: nat, width: nat): nat
    requires p <= width
  {
    Pow2Monotone(width - p, width);
    Pow2(width) - Pow2(width - p)
  }

  /** A positive number is `2^t` times an odd number, `t` being its trailing zero bits. */
  lemma {:induction false} TrailingZerosSplit(n: nat)
    requires n > 0
    ensures ShiftRight(n, TrailingZeros(n)) % 2 == 1
    ensures n == Pow2(TrailingZeros(n)) * ShiftRight(n, TrailingZeros(n))
  {
    if n % 2 == 0 {
      var h := n / 2;
      TrailingZerosSplit(h);
      MulAssoc(2, Pow2(TrailingZeros(h)), ShiftRight(h, TrailingZeros(h)));
    }
  }

  lemma MulAssoc(a: nat, b: nat, c: nat)
    ensures a * (b * c) == (a * b) * c
  {
  }

  /** `2^k` times an odd number has exactly `k` trailing zero bits, and shifting them out gives the odd number. */
  lemma {:induction false} TrailingZerosOfProduct(k: nat, m: nat)
    requires m % 2 == 1
    ensures Pow2(k) * m > 0
    ensures TrailingZeros(Pow2(k) * m) == k && ShiftRight(Pow2(k) * m, k) == m
  {
    if k > 0 {
      TrailingZerosOfProduct(k - 1, m);
      MulAssoc(2, Pow2(k - 1), m);
    }
  }

  lemma {:induction false} ShiftZero(k: nat)
    ensures ShiftRight(0, k) == 0
  {
    if k > 0 {
      ShiftZero(k - 1);
    }
  }

  /** Two to a positive power is even. */
  lemma Pow2Even(k: nat)
    requires k > 0
    ensures Pow2(k) % 2 == 0
  {
  }

  /**
   * A number below `2^width` is accepted by `PrefixFromIpInt` with prefix
   * `p` exactly when it is the netmask of prefix length `p`.
   */
  lemma PrefixFromIpIntNetmask(v: nat, width: nat, p: nat)
    requires v < Pow2(width)
    ensures PrefixFromIpInt(v, width) == Some(p) <==> p <= width && v == Netmask(p, width)
  {
    if PrefixFromIpInt(v, width) == Some(p) {
      PrefixFromIpIntSound(v, width, p);
    }
    if p <= width && v == Netmask(p, width) {
      NetmaskAccepted(width, p);
    }
  }

  lemma PrefixFromIpIntSound(v: nat, width: nat, p: nat)
    requires v < Pow2(width) && PrefixFromIpInt(v, width) == Some(p)
    ensures p <= width && v == Netmask(p, width)
  {
    if v == 0 {
      ZeroIsNetmask(width, p);
    } else {
      PositiveIsNetmask(v, width, p);
    }
  }

  lemma ZeroIsNetmask(width: nat, p: nat)
    requires PrefixFromIpInt(0, width) == Some(p)
    ensures p <= width && 0 == Netmask(p, width)
  {
    ShiftZero(width);
  }

  lemma PositiveIsNetmask(v: nat, width: nat, p: nat)
    requires 0 < v < Pow2(width) && PrefixFromIpInt(v, width) == Some(p)
    ensures p <= width && v == Netmask(p, width)
  {
    TrailingZerosBelow(v, width);
    PrefixFromIpIntParts(v, width);
    PositiveNetmask(v, width, p);
  }

  lemma PositiveNetmask(v: nat, width: nat, p: nat)
    requires 0 < v && TrailingZeros(v) + p == width
    requires ShiftRight(v, TrailingZeros(v)) == Pow2(p) - 1
    ensures v == Netmask(p, width)
  {
    var t := TrailingZeros(v);
    NetmaskFromShift(v, t, p);
    NetmaskAsDifference(width, t, p);
  }

  /** What `PrefixFromIpInt` checked when it accepted a positive number. */
  lemma PrefixFromIpIntParts(v: nat, width: nat)
    requires 0 < v && TrailingZeros(v) < width && PrefixFromIpInt(v, width).Some?
    ensures PrefixFromIpInt(v, width).value == width - TrailingZeros(v)
    ensures ShiftRight(v, TrailingZeros(v)) == Pow2(width - TrailingZeros(v)) - 1
  {
  }

  lemma NetmaskAsDifference(width: nat, t: nat, p: nat)
    requires t + p == width
    ensures Netmask(p, width) == Pow2(t + p) - Pow2(t)
  {
  }

  /** A number whose trailing zeros shift out to leave `p` ones is a netmask. */
  lemma NetmaskFromShift(v: nat, t: nat, p: nat)
    requires v > 0 && t == TrailingZeros(v) && ShiftRight(v, t) == Pow2(p) - 1
    ensures v == Pow2(t + p) - Pow2(t)
  {
    TrailingZerosSplit(v);
    OnesThenZeros(t, p);
  }

  /** A positive number below `2^width` has fewer than `width` trailing zero bits. */
  lemma TrailingZerosBelow(v: nat, width: nat)
    requires 0 < v < Pow2(width)
    ensures TrailingZeros(v) < width
  {
    var t := TrailingZeros(v);
    TrailingZerosSplit(v);
    MulLe(1, ShiftRight(v, t), Pow2(t));
    if t >= width {
      Pow2Monotone(width, t);
    }
  }

  /** `2^t` times `2^p - 1` is `2^(t + p) - 2^t`. */
  lemma OnesThenZeros(t: nat, p: nat)
    ensures Pow2(t) * (Pow2(p) - 1) == Pow2(t + p) - Pow2(t)
  {
    Pow2Add(t, p);
    MulSubOne(Pow2(t), Pow2(p));
  }

  lemma MulSubOne(a: nat, b: nat)
    requires b >= 1
    ensures a * (b - 1) == a * b - a
  {
  }

  lemma NetmaskAccepted(width: nat, p: nat)
    requires p <= width
    ensures PrefixFromIpInt(Netmask(p, width), width) == Some(p)
  {
    if p == 0 {
      ShiftZero(width);
    } else {
      var t := width - p;
      var m := Pow2(p) - 1;
      assert m % 2 == 1 by {
        Pow2Even(p);
      }
      OnesThenZeros(t, p);
      TrailingZerosOfProduct(t, m);
    }
  }

  /**
   * The number part of `_prefix_from_ip_string`: a netmask, or failing
   * that, with every bit inverted (`ip_int ^ _ALL_ONES`), a hostmask. A
   * value is only ever read as the prefix length of its own netmask or
   * hostmask (`NetmaskMaskPrefix` and `HostmaskMaskPrefix` give the
   * converse).
   */
  function MaskPrefix(v: nat, width: nat): (r: Option<nat>)
    requires v < Pow2(width)
    ensures r.Some? ==> r.value <= width && (v == Netmask(r.value, width) || v == Hostmask(r.value, width))
  {
    var asNetmask := PrefixFromIpInt(v, width);
    if asNetmask.Some? then
      PrefixFromIpIntNetmask(v, width, asNetmask.value);
      asNetmask
    else
      var u := Pow2(width) - 1 - v;
      var asHostmask := PrefixFromIpInt(u, width);
      if asHostmask.Some? then
        HostmaskReading(v, u, width, asHostmask.value);
        asHostmask
      else
        None
  }

  /** The hostmask of prefix length `p`: `width - p` one bits. */
  function Hostmask(p: nat, width: nat): (m: nat)
    requires p <= width
    ensures m < Pow2(width)
  {
    Pow2Monotone(width - p, width);
    Pow2(width - p) - 1
  }

  /** Two to a power is below two to a larger power. */
  lemma StrictPow2(j: nat, k: nat)
    requires j < k
    ensures Pow2(j) < Pow2(k)
  {
    Pow2Monotone(j + 1, k);
  }

  /** Inverting every bit of the hostmask of `p` gives the netmask of `p`. */
  lemma HostmaskInverse(width: nat, p: nat)
    requires p <= width
    ensures Pow2(width) - 1 - Hostmask(p, width) == Netmask(p, width)
  {
  }

  /** A hostmask of a prefix strictly between 0 and the width is not a netmask. */
  lemma HostmaskNotNetmask(width: nat, p: nat)
    requires 0 < p < width
    ensures PrefixFromIpInt(Hostmask(p, width), width).None?
  {
    var v := Hostmask(p, width);
    StrictPow2(width - p, width);
    if PrefixFromIpInt(v, width).Some? {
      PrefixFromIpIntNetmask(v, width, PrefixFromIpInt(v, width).value);
    }
  }

  /** Every netmask is read as its prefix length. */
  lemma NetmaskMaskPrefix(width: nat, p: nat)
    requires p <= width
    ensures Netmask(p, width) < Pow2(width)
    ensures MaskPrefix(Netmask(p, width), width) == Some(p)
  {
    NetmaskAccepted(width, p);
  }

  /**
   * The hostmask of a prefix length strictly between 0 and the width is
   * read as that prefix length. (At either end the hostmask is also a
   * netmask, and the netmask reading wins.)
   */
  lemma HostmaskMaskPrefix(width: nat, p: nat)
    requires 0 < p < width
    ensures MaskPrefix(Hostmask(p, width), width) == Some(p)
  {
    HostmaskNotNetmask(width, p);
    HostmaskInverse(width, p);
    NetmaskAccepted(width, p);
  }

  /** A value whose bitwise inverse `u` is the netmask of `p` is the hostmask of `p`. */
  lemma HostmaskReading(v: nat, u: nat, width: nat, p: nat)
    requires v < Pow2(width) && u == Pow2(width) - 1 - v && PrefixFromIpInt(u, width) == Some(p)
    ensures p <= width && v == Hostmask(p, width)
  {
    PrefixFromIpIntNetmask(u, width, p);
    HostmaskInverse(width, p);
  }
}
