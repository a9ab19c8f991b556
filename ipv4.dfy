/**
 * Dotted-quad IPv4 text as Python's `ipaddress` reads and writes it: the
 * strict octet rules of `_parse_octet`, `_ip_int_from_string`, the
 * `str()` of an address, and the netmask and hostmask forms that
 * `_prefix_from_ip_string` accepts after a `/`.
 */
module Ipv4 {
  import opened Wrappers
  import opened Text
  import opened IpBase

  /** `_parse_octet`: one to three ASCII digits, no leading zero, at most 255. */
  function ParseOctet(s: string): (r: Option<nat>)
    ensures r.Some? ==> r.value < 256 && s == NatToString(r.value)
  {
    if s == "" || !AllDigits(s) || |s| > 3 || (s != "0" && s[0] == '0') then None
    else if DecimalValue(s) > 255 then None
    else
      CanonicalDecimal(s);
      Some(DecimalValue(s))
  }

  /** `str(d)` of a byte value is an octet `_parse_octet` accepts. */
  lemma ParseOctetOfString(d: nat)
    requires d < 256
    ensures ParseOctet(NatToString(d)) == Some(d)
  {
    NatToStringLength(d, 3);
    var s := NatToString(d);
    if |s| == 1 {
      assert s == [s[0]];
    }
  }

  /** An octet is accepted exactly when it is the decimal string of a byte value. */
  lemma ParseOctetExactly(s: string, d: nat)
    ensures ParseOctet(s) == Some(d) <==> d < 256 && s == NatToString(d)
  {
    if d < 256 && s == NatToString(d) {
      ParseOctetOfString(d);
    }
  }

  /** `map(_parse_octet, octets)` as consumed by `int.from_bytes`: all octets or nothing. */
  function ParseOctets(parts: seq<string>): (r: Option<seq<nat>>)
    ensures r.Some? ==> |r.value| == |parts|
    ensures r.Some? ==> forall i :: 0 <= i < |parts| ==> r.value[i] < 256 && parts[i] == NatToString(r.value[i])
  {
    if parts == [] then Some([])
    else
      match (ParseOctet(parts[0]), ParseOctets(parts[1..]))
      case (Some(d), Some(ds)) =>
        var r := [d] + ds;
        assert forall i :: 1 <= i < |parts| ==> parts[i] == parts[1..][i - 1] && r[i] == ds[i - 1];
        Some(r)
      case _ => None
  }

  /** `str(b)` of each byte. */
  function OctetStrings(ds: seq<nat>): (r: seq<string>)
    ensures |r| == |ds|
  {
    seq(|ds|, i requires 0 <= i < |ds| => NatToString(ds[i]))
  }

  lemma {:induction false} ParseOctetsOfStrings(ds: seq<nat>)
    requires forall i :: 0 <= i < |ds| ==> ds[i] < 256
    ensures ParseOctets(OctetStrings(ds)) == Some(ds)
  {
    if ds != [] {
      var strs := OctetStrings(ds);
      assert strs[1..] == OctetStrings(ds[1..]);
      ParseOctetsOfStrings(ds[1..]);
      ParseOctetOfString(ds[0]);
      assert ds == [ds[0]] + ds[1..];
    }
  }

  /** `IPv4Address._ip_int_from_string`: exactly four octets separated by dots, read big-endian. */
  function ParseV4(s: string): (r: Option<nat>)
    ensures r.Some? ==> r.value < Pow2(32)
  {
    if s == "" then None
    else
      var octets := Split(s, '.');
      if |octets| != 4 then None
      else
        match ParseOctets(octets)
        case None => None
        case Some(ds) =>
          BaseValueBound(ds, 256);
          AddressSizes();
          Some(BaseValue(ds, 256))
  }

  /** `str(IPv4Address(x))`: the four bytes of `x`, big-endian, in decimal, joined by dots. */
  function FormatV4(x: nat): string {
    Join(OctetStrings(Digits(x, 256, 4)), '.')
  }

  /** Only digits and dots. */
  predicate DottedChars(s: string) {
    forall k :: 0 <= k < |s| ==> IsDigit(s[k]) || s[k] == '.'
  }

  /** A formatted address is four non-empty decimal octets around three dots. */
  lemma FormatV4Chars(x: nat)
    ensures DottedChars(FormatV4(x))
    ensures |FormatV4(x)| >= 7 && '.' in FormatV4(x)
  {
    var strs := OctetStrings(Digits(x, 256, 4));
    JoinAll(strs, '.', c => IsDigit(c) || c == '.');
    JoinLength(strs, '.');
    JoinHasSeparator(strs, '.');
  }

  /** Every address reads back from its text. */
  lemma V4RoundTrip(x: nat)
    requires x < Pow2(32)
    ensures ParseV4(FormatV4(x)) == Some(x)
  {
    var ds := Digits(x, 256, 4);
    var strs := OctetStrings(ds);
    var s := FormatV4(x);
    OctetStringsNoDot(ds);
    SplitJoin(strs, '.');
    FormatV4Chars(x);
    ParseOctetsOfStrings(ds);
    ParseV4Accepts(s, ds);
    AddressSizes();
    DigitsRoundTrip(x, 256, 4);
  }

  /** Text whose four dot-separated pieces are octets reads as their big-endian value. */
  lemma ParseV4Accepts(s: string, ds: seq<nat>)
    requires s != "" && |Split(s, '.')| == 4 && ParseOctets(Split(s, '.')) == Some(ds)
    ensures ParseV4(s) == Some(BaseValue(ds, 256))
  {
  }

  /** Decimal octets hold no dot. */
  lemma OctetStringsNoDot(ds: seq<nat>)
    ensures forall i :: 0 <= i < |OctetStrings(ds)| ==> '.' !in OctetStrings(ds)[i]
  {
    var strs := OctetStrings(ds);
    forall i | 0 <= i < |strs| ensures '.' !in strs[i] {
      assert AllDigits(strs[i]);
    }
  }

  /**
   * The octet rules leave one spelling per address: any text `ParseV4`
   * accepts is the text `FormatV4` writes for its value.
   */
  lemma V4Canonical(s: string, x: nat)
    requires ParseV4(s) == Some(x)
    ensures s == FormatV4(x)
  {
    var octets := Split(s, '.');
    var ds := ParseOctets(octets).value;
    assert octets == OctetStrings(ds);
    ValueDigitsRoundTrip(ds, 256);
    JoinSplit(s, '.');
  }

  /** What `ParseV4` accepts holds only digits and dots: no `:`, `/`, `#` or blank. */
  lemma ParseV4Chars(s: string)
    requires ParseV4(s).Some?
    ensures DottedChars(s)
  {
    V4Canonical(s, ParseV4(s).value);
    FormatV4Chars(ParseV4(s).value);
  }

  /** `_prefix_from_ip_string` for IPv4: a dotted quad read as a netmask or else a hostmask. */
  function PrefixFromIpString(m: string): (r: Option<nat>)
    ensures r.Some? ==> r.value <= 32
  {
    match ParseV4(m)
    case None => None
    case Some(v) => MaskPrefix(v, 32)
  }

  /** The dotted netmask of every prefix length is read as that prefix length. */
  lemma NetmaskStringAccepted(p: nat)
    requires p <= 32
    ensures PrefixFromIpString(FormatV4(Netmask(p, 32))) == Some(p)
  {
    NetmaskMaskPrefix(32, p);
    V4RoundTrip(Netmask(p, 32));
  }

  /** The dotted hostmask of a prefix length strictly between 0 and 32 is read as that prefix length. */
  lemma HostmaskStringAccepted(p: nat)
    requires 0 < p < 32
    ensures PrefixFromIpString(FormatV4(Hostmask(p, 32))) == Some(p)
  {
    HostmaskMaskPrefix(32, p);
    V4RoundTrip(Hostmask(p, 32));
  }

  /** A mask text is accepted only as the dotted netmask or hostmask of the prefix length it yields. */
  lemma PrefixFromIpStringSound(m: string, p: nat)
    requires PrefixFromIpString(m) == Some(p)
    ensures p <= 32
    ensures m == FormatV4(Netmask(p, 32)) || m == FormatV4(Hostmask(p, 32))
  {
    var v := ParseV4(m).value;
    V4Canonical(m, v);
    assert v == Netmask(p, 32) || v == Hostmask(p, 32);
  }
}
