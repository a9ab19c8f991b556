/**
 * The text forms of networks and addresses that `ipaddress.ip_network(s,
 * strict=False)`, `ipaddress.ip_address(s)` and `str()` use: an address,
 * optionally followed by `/` and a mask, tried first as IPv4 and then as
 * IPv6.
 */
module IpNetwork {
  import opened Wrappers
  import opened Text
  import opened IpBase
  import Ipv4
  import Ipv6

  /**
   * `_prefix_from_prefix_string`: ASCII decimal digits, leading zeros
   * allowed, naming a length from 0 to `width`; a longer length is
   * rejected, not clamped.
   */
  function PrefixFromPrefixString(s: string, width: nat): (r: Option<nat>)
    ensures r.Some? ==> r.value <= width
  {
    if s == "" || !AllDigits(s) then None
    else if DecimalValue(s) > width then None
    else Some(DecimalValue(s))
  }

  /**
   * `_make_netmask` of a string: a prefix length; an IPv4 network also
   * takes a dotted netmask or hostmask when the text is no prefix length.
   */
  function MaskOf(v: Version, m: string): (r: Option<nat>)
    ensures r.Some? ==> r.value <= Width(v)
  {
    match PrefixFromPrefixString(m, Width(v))
    case Some(p) => Some(p)
    case None => if v == V4 then Ipv4.PrefixFromIpString(m) else None
  }

  /** `_ip_int_from_string` of the family. */
  function AddressValue(v: Version, s: string): (r: Option<nat>)
    ensures r.Some? ==> r.value < Pow2(Width(v))
  {
    match v
    case V4 => Ipv4.ParseV4(s)
    case V6 => Ipv6.ParseV6(s)
  }

  /**
   * `IPv4Network(s, strict=False)` or `IPv6Network(s, strict=False)`: at
   * most one `/`; the address, then the mask (the full width when there is
   * none); host bits cleared.
   */
  function ParseNetOf(v: Version, s: string): (r: Option<Net>)
    ensures r.Some? ==> r.value.version == v && r.value.prefix <= Width(v)
  {
    NetOfParts(v, Split(s, '/'))
  }

  /** The network of the family written by the pieces of a text split on `/`. */
  function NetOfParts(v: Version, parts: seq<string>): (r: Option<Net>)
    requires |parts| >= 1
    ensures r.Some? ==> r.value.version == v && r.value.prefix <= Width(v)
  {
    if |parts| > 2 then None
    else NetOfValues(v, AddressValue(v, parts[0]), if |parts| == 1 then Some(Width(v)) else MaskOf(v, parts[1]))
  }

  /** The network around an address value with host bits cleared, when both the address and the mask were read. */
  function NetOfValues(v: Version, value: Option<nat>, mask: Option<nat>): (r: Option<Net>)
    requires value.Some? ==> value.value < Pow2(Width(v))
    requires mask.Some? ==> mask.value <= Width(v)
    ensures r.Some? <==> value.Some? && mask.Some?
    ensures r.Some? ==> r.value.version == v && r.value.prefix == mask.value
  {
    match (value, mask)
    case (Some(x), Some(p)) => Some(NetOf(v, x, p))
    case _ => None
  }

  /** `ipaddress.ip_network(s, strict=False)`: IPv4 first, then IPv6; `None` for the `ValueError`. */
  function ParseNetwork(s: string): (r: Option<Net>)
    ensures r.Some? ==> r.value.prefix <= Width(r.value.version)
  {
    match ParseNetOf(V4, s)
    case Some(n) => Some(n)
    case None => ParseNetOf(V6, s)
  }

  /** A network of the family read from text is well-formed: in range, host bits cleared. */
  lemma ParseNetOfValid(v: Version, s: string)
    requires ParseNetOf(v, s).Some?
    ensures ValidNet(ParseNetOf(v, s).value)
  {
    var parts := Split(s, '/');
    var value := AddressValue(v, parts[0]);
    var mask := if |parts| == 1 then Some(Width(v)) else MaskOf(v, parts[1]);
    assert ParseNetOf(v, s) == NetOfValues(v, value, mask);
    NetOfValid(v, value.value, mask.value);
  }

  /** Every network `ip_network` accepts is well-formed: in range, host bits cleared. */
  lemma ParseNetworkValid(s: string)
    requires ParseNetwork(s).Some?
    ensures ValidNet(ParseNetwork(s).value)
  {
    if ParseNetOf(V4, s).Some? {
      ParseNetOfValid(V4, s);
    } else {
      ParseNetOfValid(V6, s);
    }
  }

  /**
   * `_split_scope_id` of an IPv6 text: the part before the first `%`, or
   * the whole text when it has none; `None` when the scope after the `%` is
   * empty or holds a second `%`.
   */
  function SplitScope(s: string): (r: Option<string>)
    ensures r.Some? ==> '%' !in r.value && r.value <= s
    ensures '%' !in s ==> r == Some(s)
  {
    if '%' !in s then Some(s)
    else
      var i := IndexOf(s, '%');
      var scope := s[i + 1..];
      if scope == "" || '%' in scope then None else Some(s[..i])
  }

  /**
   * `ipaddress.ip_address(s)`: no `/` allowed; IPv4 first, then IPv6,
   * whose scope id (`%` and a zone name) is split off and plays no part in
   * the address value.
   */
  function ParseAddress(s: string): (r: Option<Address>)
    ensures r.Some? ==> ValidAddress(r.value)
  {
    if '/' in s then None
    else
      match AddressValue(V4, s)
      case Some(x) => Some(Address(V4, x))
      case None =>
        match SplitScope(s)
        case None => None
        case Some(t) =>
          match AddressValue(V6, t)
          case Some(x) => Some(Address(V6, x))
          case None => None
  }

  /** A text holding `%` is no IPv4 address. */
  lemma PercentNotV4(s: string)
    requires '%' in s
    ensures Ipv4.ParseV4(s) == None
  {
    if Ipv4.ParseV4(s).Some? {
      Ipv4.ParseV4Chars(s);
    }
  }

  /** A scope id after an IPv6 address is accepted and does not change the address. */
  lemma ScopedAddress(a: string, scope: string)
    requires ParseAddress(a).Some? && ParseAddress(a).value.version == V6 && '%' !in a
    requires scope != "" && '%' !in scope && '/' !in scope
    ensures ParseAddress(a + "%" + scope) == ParseAddress(a)
  {
    hide IndexOf, Ipv4.ParseV4, Ipv6.ParseV6;
    var s := a + "%" + scope;
    assert s[|a|] == '%';
    assert s[..|a|] == a;
    var i := IndexOf(s, '%');
    assert i == |a|;
    assert s[..i] == a && s[i + 1..] == scope;
    assert '/' !in s by {
      assert '/' !in a;
      forall k | 0 <= k < |s| ensures s[k] != '/' {
        if k < |a| {
          assert s[k] == a[k];
        } else if k > |a| {
          assert s[k] == scope[k - |a| - 1];
        }
      }
    }
    PercentNotV4(s);
  }

  /** A `%` with an empty scope, or a second `%`, makes the text no address. */
  lemma BadScopeRejected(a: string, scope: string)
    requires '%' !in a
    requires scope == "" || '%' in scope
    ensures ParseAddress(a + "%" + scope) == None
  {
    hide IndexOf, Ipv4.ParseV4, Ipv6.ParseV6;
    var s := a + "%" + scope;
    assert s[|a|] == '%';
    assert s[..|a|] == a;
    var i := IndexOf(s, '%');
    assert i == |a|;
    assert s[i + 1..] == scope;
    PercentNotV4(s);
  }

  /** The message of the `ValueError` that `ip_address` raises. */
  function AddressError(s: string): (msg: string)
    ensures msg != "" && s <= msg[1..]
  {
    "'" + s + "' does not appear to be an IPv4 or IPv6 address"
  }

  /** `str()` of an address. */
  function FormatAddress(a: Address): string {
    match a.version
    case V4 => Ipv4.FormatV4(a.value)
    case V6 => Ipv6.FormatV6(a.value)
  }

  /** `str()` of a network: its address, `/`, and its prefix length in decimal. */
  function FormatNet(n: Net): (s: string)
    ensures '/' in s
  {
    var t := FormatAddress(Address(n.version, n.addr)) + "/" + NatToString(n.prefix);
    assert t[|FormatAddress(Address(n.version, n.addr))|] == '/';
    t
  }

  /** Characters that may appear in the text of a network: none of them a blank, a newline, `#` or `;`. */
  predicate NetChar(c: char) {
    IsHexDigit(c) || c == '.' || c == ':' || c == '/'
  }

  /** The text of an address holds no `/` and only hexadecimal digits, dots and colons. */
  lemma FormatAddressChars(a: Address)
    ensures '/' !in FormatAddress(a)
    ensures forall k :: 0 <= k < |FormatAddress(a)| ==> NetChar(FormatAddress(a)[k])
    ensures a.version == V6 ==> ':' in FormatAddress(a)
    ensures a.version == V4 ==> Ipv4.DottedChars(FormatAddress(a))
  {
    match a.version
    case V4 =>
      Ipv4.FormatV4Chars(a.value);
    case V6 =>
      Ipv6.FormatV6Chars(a.value);
  }

  /** The text of a network is non-empty and holds only characters `NetChar` allows. */
  lemma FormatNetChars(n: Net)
    ensures FormatNet(n) != ""
    ensures forall k :: 0 <= k < |FormatNet(n)| ==> NetChar(FormatNet(n)[k])
  {
    var a := FormatAddress(Address(n.version, n.addr));
    var d := NatToString(n.prefix);
    FormatAddressChars(Address(n.version, n.addr));
    var s := a + "/" + d;
    forall k | 0 <= k < |s| ensures NetChar(s[k]) {
      if k < |a| {
        assert s[k] == a[k];
      } else if k > |a| {
        assert s[k] == d[k - |a| - 1];
      }
    }
  }

  /** Splitting `a/m` on `/`, when neither part holds a `/`, gives the two parts. */
  lemma SlashSplit(a: string, m: string)
    requires '/' !in a && '/' !in m
    ensures Split(a + "/" + m, '/') == [a, m]
  {
    FirstSeparator(a, '/', m);
    SplitStep(a + "/" + m, '/');
  }

  /** The decimal text of a length from 0 to `width` is read as that length. */
  lemma PrefixStringOfNat(p: nat, width: nat)
    requires p <= width
    ensures PrefixFromPrefixString(NatToString(p), width) == Some(p)
  {
  }

  /** A text with a colon is not a dotted quad. */
  lemma ColonNotV4(s: string)
    requires ':' in s
    ensures Ipv4.ParseV4(s) == None
  {
    if Ipv4.ParseV4(s).Some? {
      Ipv4.ParseV4Chars(s);
    }
  }

  /** A dotted quad is not IPv6 text: it has no colon. */
  lemma DottedNotV6(s: string)
    requires Ipv4.DottedChars(s)
    ensures Ipv6.ParseV6(s) == None
  {
    assert ':' !in s;
    assert Split(s, ':') == [s];
  }

  /** `a/m` with an address and a mask of the family is the network of that mask around the address. */
  lemma ParseNetOfParts(v: Version, a: string, m: string, value: nat, p: nat)
    requires '/' !in a && '/' !in m
    requires AddressValue(v, a) == Some(value) && MaskOf(v, m) == Some(p)
    ensures value < Pow2(Width(v)) && p <= Width(v)
    ensures ParseNetOf(v, a + "/" + m) == Some(NetOf(v, value, p))
  {
    SlashSplit(a, m);
    NetOfTwoParts(v, a, m, value, p);
  }

  lemma NetOfTwoParts(v: Version, a: string, m: string, value: nat, p: nat)
    requires AddressValue(v, a) == Some(value) && MaskOf(v, m) == Some(p)
    ensures value < Pow2(Width(v)) && p <= Width(v)
    ensures NetOfParts(v, [a, m]) == Some(NetOf(v, value, p))
  {
    hide AddressValue, MaskOf;
    assert NetOfParts(v, [a, m]) == NetOfValues(v, AddressValue(v, a), MaskOf(v, m));
  }

  /** `a/m` is no network of the family when the address or the mask is not of it. */
  lemma ParseNetOfRejects(v: Version, a: string, m: string)
    requires '/' !in a && '/' !in m
    requires AddressValue(v, a) == None || MaskOf(v, m) == None
    ensures ParseNetOf(v, a + "/" + m) == None
  {
    SlashSplit(a, m);
    assert [a, m][0] == a && [a, m][1] == m;
  }

  /** Every valid network reads back from its text: `ip_network(str(n)) == n`. */
  lemma NetworkRoundTrip(n: Net)
    requires ValidNet(n)
    ensures ParseNetwork(FormatNet(n)) == Some(n)
  {
    var a := FormatAddress(Address(n.version, n.addr));
    var d := NatToString(n.prefix);
    FormatAddressChars(Address(n.version, n.addr));
    PrefixStringOfNat(n.prefix, Width(n.version));
    assert '/' !in d by {
      assert forall k :: 0 <= k < |d| ==> IsDigit(d[k]);
    }
    assert FormatNet(n) == a + "/" + d;
    match n.version
    case V4 =>
      Ipv4.V4RoundTrip(n.addr);
      ParseNetOfParts(V4, a, d, n.addr, n.prefix);
    case V6 =>
      Ipv6.V6RoundTrip(n.addr);
      ColonNotV4(a);
      ParseNetOfRejects(V4, a, d);
      ParseNetOfParts(V6, a, d, n.addr, n.prefix);
  }

  /** The text of an address holds neither `/` nor `%`. */
  lemma FormatAddressPlain(a: Address)
    ensures '/' !in FormatAddress(a) && '%' !in FormatAddress(a)
  {
    var s := FormatAddress(a);
    FormatAddressChars(a);
    forall k | 0 <= k < |s| ensures s[k] != '%' {
      assert NetChar(s[k]);
    }
  }

  /** Every valid address reads back from its text: `ip_address(str(a)) == a`. */
  lemma AddressRoundTrip(a: Address)
    requires ValidAddress(a)
    ensures ParseAddress(FormatAddress(a)) == Some(a)
  {
    var s := FormatAddress(a);
    FormatAddressChars(a);
    FormatAddressPlain(a);
    hide SplitScope, IndexOf, NetChar, Ipv4.DottedChars, Ipv4.ParseV4, Ipv6.ParseV6, Ipv4.FormatV4, Ipv6.FormatV6;
    match a.version
    case V4 =>
      Ipv4.V4RoundTrip(a.value);
      assert AddressValue(V4, s) == Some(a.value);
    case V6 =>
      Ipv6.V6RoundTrip(a.value);
      ColonNotV4(s);
      assert AddressValue(V4, s) == None && AddressValue(V6, s) == Some(a.value);
  }

  /** Decimal digits hold no `/` and no `.`. */
  lemma DigitsNoSlash(m: string)
    requires AllDigits(m)
    ensures '/' !in m && '.' !in m
  {
    assert forall k :: 0 <= k < |m| ==> IsDigit(m[k]);
  }

  /**
   * An address followed by `/` and a decimal prefix length is the network
   * of that length around the address, host bits cleared, when the length
   * is at most the family's width, and is rejected otherwise.
   */
  lemma PrefixLengthRule(a: string, m: string)
    requires ParseAddress(a).Some? && '%' !in a && m != "" && AllDigits(m)
    ensures var ad := ParseAddress(a).value;
      ParseNetwork(a + "/" + m)
        == if DecimalValue(m) <= Width(ad.version) then Some(NetOf(ad.version, ad.value, DecimalValue(m))) else None
  {
    hide SplitScope;
    var ad := ParseAddress(a).value;
    DigitsNoSlash(m);
    assert Split(m, '.') == [m];
    assert Ipv4.ParseV4(m) == None;
    match ad.version
    case V4 =>
      Ipv4.ParseV4Chars(a);
      DottedNotV6(a);
      ParseNetOfRejects(V6, a, m);
      if DecimalValue(m) <= 32 {
        ParseNetOfParts(V4, a, m, ad.value, DecimalValue(m));
      } else {
        ParseNetOfRejects(V4, a, m);
      }
    case V6 =>
      ParseNetOfRejects(V4, a, m);
      if DecimalValue(m) <= 128 {
        ParseNetOfParts(V6, a, m, ad.value, DecimalValue(m));
      } else {
        ParseNetOfRejects(V6, a, m);
      }
  }

  /** An IPv4 address followed by `/` and a dotted mask is the network of the prefix length the mask is read as. */
  lemma DottedMaskForm(a: string, m: string, p: nat)
    requires ParseAddress(a).Some? && ParseAddress(a).value.version == V4
    requires Ipv4.DottedChars(m) && '.' in m && Ipv4.PrefixFromIpString(m) == Some(p)
    ensures ParseNetwork(a + "/" + m) == Some(NetOf(V4, ParseAddress(a).value.value, p))
  {
    MaskNotPrefixString(m);
    ParseNetOfParts(V4, a, m, ParseAddress(a).value.value, p);
  }

  /** An IPv4 address followed by `/` and the dotted netmask of a prefix length is the network of that length. */
  lemma NetmaskForm(a: string, p: nat)
    requires ParseAddress(a).Some? && ParseAddress(a).value.version == V4 && p <= 32
    ensures ParseNetwork(a + "/" + Ipv4.FormatV4(Netmask(p, 32)))
      == Some(NetOf(V4, ParseAddress(a).value.value, p))
  {
    Ipv4.FormatV4Chars(Netmask(p, 32));
    Ipv4.NetmaskStringAccepted(p);
    DottedMaskForm(a, Ipv4.FormatV4(Netmask(p, 32)), p);
  }

  /** An IPv4 address followed by `/` and the dotted hostmask of a prefix length strictly between 0 and 32 is the network of that length. */
  lemma HostmaskForm(a: string, p: nat)
    requires ParseAddress(a).Some? && ParseAddress(a).value.version == V4 && 0 < p < 32
    ensures ParseNetwork(a + "/" + Ipv4.FormatV4(Hostmask(p, 32)))
      == Some(NetOf(V4, ParseAddress(a).value.value, p))
  {
    Ipv4.FormatV4Chars(Hostmask(p, 32));
    Ipv4.HostmaskStringAccepted(p);
    DottedMaskForm(a, Ipv4.FormatV4(Hostmask(p, 32)), p);
  }

  /** A dotted mask is not a prefix length. */
  lemma MaskNotPrefixString(m: string)
    requires Ipv4.DottedChars(m) && '.' in m
    ensures '/' !in m
    ensures PrefixFromPrefixString(m, 32) == None
  {
    assert forall k :: 0 <= k < |m| ==> m[k] != '/';
    var k :| 0 <= k < |m| && m[k] == '.';
    assert !IsDigit(m[k]);
  }
}
