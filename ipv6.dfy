/**
 * IPv6 address text as Python's `ipaddress.IPv6Address` reads and writes
 * it: eight groups of up to four hexadecimal digits separated by colons,
 * at most one `::` standing for a run of zero groups, and an optional
 * dotted IPv4 tail for the last 32 bits; written back in lower case with
 * leading zeros dropped and the first longest run of two or more zero
 * groups shortened to `::` (the text form of section 2.2 of RFC 4291).
 */
module Ipv6 {
  import opened Wrappers
  import opened Text
  import opened IpBase
  import Ipv4

  /** Every number in the list is below `b`. */
  predicate AllBelow(ds: seq<nat>, b: nat) {
    forall i :: 0 <= i < |ds| ==> ds[i] < b
  }

  /** `_parse_hextet`: one to four hexadecimal digits (`int('', 16)` rejects the empty group). */
  function ParseHextet(s: string): (r: Option<nat>)
    ensures r.Some? ==> s != "" && |s| <= 4 && AllHexDigits(s) && r.value == HexValue(s) && r.value < 0x1_0000
  {
    if s != "" && |s| <= 4 && AllHexDigits(s) then
      HexValueBound(s, 4);
      Some(HexValue(s))
    else
      None
  }

  /** `'%x'` of a group reads back as that group. */
  lemma ParseHextetOfString(d: nat)
    requires d < 0x1_0000
    ensures ParseHextet(HexString(d)) == Some(d)
  {
    assert Pow16(4) == 0x1_0000;
    HexStringLength(d, 4);
  }

  /** The groups of a list of texts: all of them or nothing. */
  function ParseHextets(parts: seq<string>): (r: Option<seq<nat>>)
    ensures r.Some? ==> |r.value| == |parts| && AllBelow(r.value, 0x1_0000)
  {
    if parts == [] then Some([])
    else
      match (ParseHextet(parts[0]), ParseHextets(parts[1..]))
      case (Some(d), Some(ds)) =>
        assert forall i :: 1 <= i < 1 + |ds| ==> ([d] + ds)[i] == ds[i - 1];
        Some([d] + ds)
      case _ => None
  }

  /** `'%x'` of each group. */
  function HexStrings(ds: seq<nat>): (r: seq<string>)
    ensures |r| == |ds|
  {
    seq(|ds|, i requires 0 <= i < |ds| => HexString(ds[i]))
  }

  lemma {:induction false} ParseHextetsOfStrings(ds: seq<nat>)
    requires AllBelow(ds, 0x1_0000)
    ensures ParseHextets(HexStrings(ds)) == Some(ds)
  {
    if ds != [] {
      assert HexStrings(ds)[1..] == HexStrings(ds[1..]);
      ParseHextetsOfStrings(ds[1..]);
      ParseHextetOfString(ds[0]);
      assert ds == [ds[0]] + ds[1..];
    }
  }

  /** The groups of `HexStrings` are non-empty and hold no colon or dot. */
  lemma HexStringsPlain(ds: seq<nat>)
    ensures PlainGroups(HexStrings(ds))
  {
    var hs := HexStrings(ds);
    forall i | 0 <= i < |hs| ensures hs[i] != "" && ':' !in hs[i] && '.' !in hs[i] {
      var h := HexString(ds[i]);
      assert hs[i] == h;
      assert forall k :: 0 <= k < |h| ==> h[k] != ':' && h[k] != '.';
    }
  }

  /**
   * A last group holding a dot is a dotted IPv4 address standing for the
   * last two groups; it is replaced by those two groups in hexadecimal.
   */
  function ExpandV4Tail(parts: seq<string>): (r: Option<seq<string>>)
    requires |parts| >= 1
    ensures r.Some? && '.' !in parts[|parts| - 1] ==> r.value == parts
    ensures r.Some? && '.' in parts[|parts| - 1] ==> |r.value| == |parts| + 1 && r.value[..|parts| - 1] == parts[..|parts| - 1]
  {
    var last := parts[|parts| - 1];
    if '.' in last then
      match Ipv4.ParseV4(last)
      case None => None
      case Some(v) => Some(parts[..|parts| - 1] + [HexString(v / 0x1_0000), HexString(v % 0x1_0000)])
    else
      Some(parts)
  }

  /** The positions from `i` on, short of the last, that hold an empty group: where a `::` was written. */
  function InteriorEmpties(parts: seq<string>, i: nat): (r: seq<nat>)
    ensures forall k :: k in r ==> i <= k < |parts| - 1 && parts[k] == ""
    decreases |parts| - i
  {
    if i + 1 >= |parts| then []
    else (if parts[i] == "" then [i] else []) + InteriorEmpties(parts, i + 1)
  }

  /** Every interior empty group is found. */
  lemma {:induction false} InteriorEmptiesComplete(parts: seq<string>, i: nat, k: nat)
    requires i <= k < |parts| - 1 && parts[k] == ""
    ensures k in InteriorEmpties(parts, i)
    decreases |parts| - i
  {
    if k > i {
      InteriorEmptiesComplete(parts, i + 1, k);
    }
  }

  /** With one interior empty group at `j`, that is the only position found. */
  lemma {:induction false} InteriorEmptiesOne(parts: seq<string>, i: nat, j: nat)
    requires i <= j < |parts| - 1 && parts[j] == ""
    requires forall k :: i <= k < |parts| - 1 && k != j ==> parts[k] != ""
    ensures InteriorEmpties(parts, i) == [j]
    decreases |parts| - i
  {
    if i < j {
      InteriorEmptiesOne(parts, i + 1, j);
    } else {
      InteriorEmptiesNone(parts, i + 1);
    }
  }

  /** Without interior empty groups nothing is found. */
  lemma {:induction false} InteriorEmptiesNone(parts: seq<string>, i: nat)
    requires forall k :: i <= k < |parts| - 1 ==> parts[k] != ""
    ensures InteriorEmpties(parts, i) == []
    decreases |parts| - i
  {
    if i + 1 < |parts| {
      InteriorEmptiesNone(parts, i + 1);
    }
  }

  /** `n` zero groups: what a `::` stands for. */
  function Zeros(n: nat): (r: seq<nat>)
    ensures |r| == n && forall i :: 0 <= i < n ==> r[i] == 0
  {
    seq(n, i => 0)
  }

  /**
   * The value of `hi` groups, then `skipped` zero groups, then `lo`
   * groups, read big-endian; `None` when a group is not one to four
   * hexadecimal digits.
   */
  function Assemble(hi: seq<string>, skipped: nat, lo: seq<string>): (r: Option<nat>)
    requires |hi| + skipped + |lo| == 8
    ensures r.Some? ==> r.value < Pow2(128)
  {
    match (ParseHextets(hi), ParseHextets(lo))
    case (Some(h), Some(l)) =>
      var ds := h + Zeros(skipped) + l;
      GroupsBound(h, skipped, l);
      Some(BaseValue(ds, 0x1_0000))
    case _ => None
  }

  /** Eight groups below `2^16` make a value below `2^128`. */
  lemma GroupsBound(h: seq<nat>, skipped: nat, l: seq<nat>)
    requires AllBelow(h, 0x1_0000) && AllBelow(l, 0x1_0000) && |h| + skipped + |l| == 8
    ensures BaseValue(h + Zeros(skipped) + l, 0x1_0000) < Pow2(128)
  {
    var z := Zeros(skipped);
    assert AllBelow(z, 0x1_0000);
    AllBelowConcat(h, z, 0x1_0000);
    AllBelowConcat(h + z, l, 0x1_0000);
    EightGroupsBound(h + z + l);
  }

  /** Groups below a bound, followed by more groups below it, are all below it. */
  lemma AllBelowConcat(a: seq<nat>, b: seq<nat>, bound: nat)
    requires AllBelow(a, bound) && AllBelow(b, bound)
    ensures AllBelow(a + b, bound)
  {
    forall i | 0 <= i < |a + b| ensures (a + b)[i] < bound {
      if i < |a| {
        assert (a + b)[i] == a[i];
      } else {
        assert (a + b)[i] == b[i - |a|];
      }
    }
  }

  /** The value of eight groups below `2^16` is below `2^128`. */
  lemma EightGroupsBound(ds: seq<nat>)
    requires |ds| == 8 && AllBelow(ds, 0x1_0000)
    ensures BaseValue(ds, 0x1_0000) < Pow2(128)
  {
    BaseValueBound(ds, 0x1_0000);
    AddressSizes();
  }

  /**
   * The groups around a `::` at position `skip`: a leading (trailing)
   * empty group is allowed only as part of a `::` at the start (end), and
   * the `::` must stand for at least one group.
   */
  function ParseCompressed(parts: seq<string>, skip: nat): (r: Option<nat>)
    requires 1 <= skip < |parts| - 1
    ensures r.Some? ==> r.value < Pow2(128)
  {
    var hi := if parts[0] == "" then skip - 1 else skip;
    var lo := if parts[|parts| - 1] == "" then |parts| - skip - 2 else |parts| - skip - 1;
    if parts[0] == "" && hi != 0 then None
    else if parts[|parts| - 1] == "" && lo != 0 then None
    else if hi + lo >= 8 then None
    else AssembleAround(parts, hi, lo)
  }

  /** `Assemble` of the first `hi` and the last `lo` pieces, with the groups between them zero. */
  function AssembleAround(parts: seq<string>, hi: nat, lo: nat): (r: Option<nat>)
    requires hi <= |parts| && lo <= |parts| && hi + lo < 8
    ensures r.Some? ==> r.value < Pow2(128)
  {
    Assemble(parts[..hi], 8 - (hi + lo), parts[|parts| - lo..])
  }

  /** `IPv6Address._ip_int_from_string`. */
  function ParseV6(s: string): (r: Option<nat>)
    ensures r.Some? ==> r.value < Pow2(128)
  {
    if s == "" then None
    else
      var split := Split(s, ':');
      if |split| < 3 then None
      else
        match ExpandV4Tail(split)
        case None => None
        case Some(parts) =>
          if |parts| > 9 then None
          else
            var empties := InteriorEmpties(parts, 1);
            if |empties| > 1 then None
            else if |empties| == 1 then
              var skip := empties[0];
              assert skip in empties;
              ParseCompressed(parts, skip)
            else if |parts| != 8 || parts[0] == "" || parts[7] == "" then None
            else Assemble(parts, 0, [])
  }

  /** Which groups are written `"0"`: the test `_compress_hextets` makes on each group. */
  function ZeroFlags(hs: seq<string>): (zs: seq<bool>)
    ensures |zs| == |hs|
  {
    seq(|hs|, i requires 0 <= i < |hs| => hs[i] == "0")
  }

  /** Positions `s` up to `e` are all flagged. */
  predicate ZeroRun(zs: seq<bool>, s: nat, e: nat) {
    s <= e <= |zs| && forall k :: s <= k < e ==> zs[k]
  }

  /** The number of flagged positions the list ends with. */
  function TrailingZeroRun(zs: seq<bool>): (n: nat)
    ensures n <= |zs|
  {
    if zs == [] || !zs[|zs| - 1] then 0 else 1 + TrailingZeroRun(zs[..|zs| - 1])
  }

  /** The trailing run is a run, and the position before it is not flagged. */
  lemma {:induction false} TrailingZeroRunIsRun(zs: seq<bool>)
    ensures ZeroRun(zs, |zs| - TrailingZeroRun(zs), |zs|)
    ensures TrailingZeroRun(zs) < |zs| ==> !zs[|zs| - 1 - TrailingZeroRun(zs)]
  {
    if zs != [] && zs[|zs| - 1] {
      var init := zs[..|zs| - 1];
      TrailingZeroRunIsRun(init);
      var n := TrailingZeroRun(init);
      assert forall k :: |init| - n <= k < |init| ==> zs[k] == init[k];
      assert n < |init| ==> zs[|zs| - 2 - n] == init[|init| - 1 - n];
    }
  }

  /** A run reaching the end of the list is no longer than its trailing run. */
  lemma TrailingZeroRunLongest(zs: seq<bool>, s: nat)
    requires ZeroRun(zs, s, |zs|)
    ensures |zs| - s <= TrailingZeroRun(zs)
  {
    TrailingZeroRunIsRun(zs);
  }

  datatype Run = Run(start: nat, len: nat)

  /**
   * The scan of `_compress_hextets`: the first longest run of `"0"`
   * groups, found by extending the current run one group at a time and
   * keeping it when it becomes strictly longer than the best so far.
   */
  function BestRun(zs: seq<bool>): (run: Run)
    ensures run.start + run.len <= |zs|
  {
    if zs == [] then Run(0, 0)
    else
      var init := zs[..|zs| - 1];
      var best := BestRun(init);
      var current := TrailingZeroRun(init) + 1;
      if zs[|zs| - 1] && current > best.len then Run(|zs| - current, current) else best
  }

  /** The run `BestRun` picks is a run of `"0"` groups. */
  lemma {:induction false} BestRunIsRun(zs: seq<bool>)
    ensures ZeroRun(zs, BestRun(zs).start, BestRun(zs).start + BestRun(zs).len)
  {
    if zs != [] {
      var init := zs[..|zs| - 1];
      var best := BestRun(init);
      var current := TrailingZeroRun(init) + 1;
      if zs[|zs| - 1] && current > best.len {
        TrailingZeroRunIsRun(init);
        assert forall k :: |zs| - current <= k < |init| ==> zs[k] == init[k];
      } else {
        BestRunIsRun(init);
        assert forall k :: best.start <= k < best.start + best.len ==> zs[k] == init[k];
      }
    }
  }

  /** A run that stops before the last position is a run in all but the last position. */
  lemma ZeroRunOfInit(zs: seq<bool>, s: nat, e: nat)
    requires zs != [] && ZeroRun(zs, s, e) && e < |zs|
    ensures ZeroRun(zs[..|zs| - 1], s, e)
  {
    var init := zs[..|zs| - 1];
    forall k | s <= k < e ensures init[k] {
      assert zs[k] == init[k];
    }
  }

  /** No run of `"0"` groups is longer than the one `BestRun` picks. */
  lemma {:induction false} BestRunLongest(zs: seq<bool>, s: nat, e: nat)
    requires ZeroRun(zs, s, e)
    ensures e - s <= BestRun(zs).len
  {
    if zs != [] && s < e {
      var init := zs[..|zs| - 1];
      if e < |zs| {
        ZeroRunOfInit(zs, s, e);
        BestRunLongest(init, s, e);
      } else {
        ZeroRunOfInit(zs, s, e - 1);
        TrailingZeroRunLongest(init, s);
      }
    }
  }

  /** No run of the same length starts before the one `BestRun` picks. */
  lemma {:induction false} BestRunFirst(zs: seq<bool>, s: nat)
    requires s < BestRun(zs).start
    ensures !ZeroRun(zs, s, s + BestRun(zs).len)
  {
    var best := BestRun(zs);
    var init := zs[..|zs| - 1];
    var prev := BestRun(init);
    if ZeroRun(zs, s, s + best.len) {
      ZeroRunOfInit(zs, s, s + best.len);
      if best == prev {
        BestRunFirst(init, s);
      } else {
        BestRunLongest(init, s, s + best.len);
      }
    }
  }

  /**
   * `_compress_hextets`: the first longest run of two or more `"0"`
   * groups becomes one empty group, with one more empty group at the
   * start or the end when the run touches it (so that joining gives
   * `::`). `CompressAround` gives the resulting shape.
   */
  function Compress(hs: seq<string>): (r: seq<string>)
    ensures BestRun(ZeroFlags(hs)).len <= 1 ==> r == hs
  {
    var best := BestRun(ZeroFlags(hs));
    if best.len > 1 then ReplaceRun(hs, best.start, best.start + best.len) else hs
  }

  /** The slice assignment of `_compress_hextets`, after padding the list when the run reaches its end. */
  function ReplaceRun(hs: seq<string>, s: nat, e: nat): seq<string>
    requires s < e <= |hs|
  {
    var padded := if e == |hs| then hs + [""] else hs;
    var replaced := padded[..s] + [""] + padded[e..];
    if s == 0 then [""] + replaced else replaced
  }

  /**
   * The compressed form around the chosen run from `s` up to `e`: the
   * groups before it (or an empty group when it starts the list), an
   * empty group, and the groups after it (or an empty group when it ends
   * the list).
   */
  function Around(hs: seq<string>, s: nat, e: nat): seq<string>
    requires s <= e <= |hs|
  {
    (if s == 0 then [""] else hs[..s]) + [""] + (if e == |hs| then [""] else hs[e..])
  }

  lemma ReplaceRunAround(hs: seq<string>, s: nat, e: nat)
    requires s < e <= |hs|
    ensures ReplaceRun(hs, s, e) == Around(hs, s, e)
  {
    var padded := if e == |hs| then hs + [""] else hs;
    assert padded[..s] == hs[..s];
    assert padded[e..] == (if e == |hs| then [""] else hs[e..]);
  }

  /** Compression replaces the chosen run by an empty group so that joining writes `::` in its place. */
  lemma CompressAround(hs: seq<string>)
    requires BestRun(ZeroFlags(hs)).len > 1
    ensures var b := BestRun(ZeroFlags(hs)); Compress(hs) == Around(hs, b.start, b.start + b.len)
  {
    var b := BestRun(ZeroFlags(hs));
    ReplaceRunAround(hs, b.start, b.start + b.len);
  }

  /** `str(IPv6Address(x))`: the eight groups of `x` in `'%x'`, compressed, joined by colons. */
  function FormatV6(x: nat): string {
    Join(Compress(HexStrings(Digits(x, 0x1_0000, 8))), ':')
  }

  /** Hexadecimal digits and colons only. */
  predicate ColonHexChars(s: string) {
    forall k :: 0 <= k < |s| ==> IsHexDigit(s[k]) || s[k] == ':'
  }

  /** Every piece a string of hexadecimal digits, possibly empty. */
  predicate HexPieces(ps: seq<string>) {
    forall i :: 0 <= i < |ps| ==> AllHexDigits(ps[i])
  }

  /** The compressed form of eight groups still has two or more pieces, each hexadecimal or empty. */
  lemma CompressHexPieces(hs: seq<string>)
    requires |hs| == 8 && HexPieces(hs)
    ensures |Compress(hs)| >= 2 && HexPieces(Compress(hs))
  {
    var b := BestRun(ZeroFlags(hs));
    if b.len > 1 {
      CompressAround(hs);
      AroundHexPieces(hs, b.start, b.start + b.len);
    }
  }

  /** The pieces around a `::` are hexadecimal or empty when the groups are. */
  lemma AroundHexPieces(hs: seq<string>, s: nat, e: nat)
    requires s <= e <= |hs| && HexPieces(hs)
    ensures |Around(hs, s, e)| >= 3 && HexPieces(Around(hs, s, e))
  {
    var pre := if s == 0 then [""] else hs[..s];
    var post := if e == |hs| then [""] else hs[e..];
    assert HexPieces(pre) && HexPieces(post) by {
      assert forall i :: 0 <= i < |pre| && s != 0 ==> pre[i] == hs[i];
      assert forall i :: 0 <= i < |post| && e != |hs| ==> post[i] == hs[e + i];
    }
    var parts := Around(hs, s, e);
    assert parts == pre + [""] + post;
    forall i | 0 <= i < |parts| ensures AllHexDigits(parts[i]) {
      if i < |pre| {
        assert parts[i] == pre[i];
      } else if i > |pre| {
        assert parts[i] == post[i - |pre| - 1];
      }
    }
  }

  /** The text of an address holds a colon, and otherwise only hexadecimal digits. */
  lemma FormatV6Chars(x: nat)
    ensures ':' in FormatV6(x) && ColonHexChars(FormatV6(x))
  {
    var ds := Digits(x, 0x1_0000, 8);
    var hs := HexStrings(ds);
    assert HexPieces(hs) by {
      forall i | 0 <= i < |hs| ensures AllHexDigits(hs[i]) {
        assert hs[i] == HexString(ds[i]);
      }
    }
    CompressHexPieces(hs);
    var parts := Compress(hs);
    JoinHasSeparator(parts, ':');
    JoinAll(parts, ':', c => IsHexDigit(c) || c == ':');
  }

  /** A text whose colon-separated pieces have one interior empty group, at `j`, reads as those pieces around the `::`. */
  lemma ParseV6Compressed(text: string, parts: seq<string>, j: nat)
    requires text != "" && Split(text, ':') == parts && 3 <= |parts| <= 9
    requires '.' !in parts[|parts| - 1]
    requires InteriorEmpties(parts, 1) == [j]
    ensures 1 <= j < |parts| - 1
    ensures ParseV6(text) == ParseCompressed(parts, j)
  {
    assert j in InteriorEmpties(parts, 1);
  }

  /** A text of eight non-empty colon-separated pieces reads as those eight groups. */
  lemma ParseV6Full(text: string, parts: seq<string>)
    requires text != "" && Split(text, ':') == parts && |parts| == 8 && PlainGroups(parts)
    ensures ParseV6(text) == Assemble(parts, 0, [])
  {
    InteriorEmptiesNone(parts, 1);
  }

  /** `ParseCompressed` when the pieces before and after the `::` are `hi` and `lo` many. */
  lemma ParseCompressedOf(parts: seq<string>, skip: nat, hi: nat, lo: nat)
    requires 1 <= skip < |parts| - 1
    requires hi == (if parts[0] == "" then skip - 1 else skip)
    requires lo == (if parts[|parts| - 1] == "" then |parts| - skip - 2 else |parts| - skip - 1)
    requires (parts[0] == "" ==> hi == 0) && (parts[|parts| - 1] == "" ==> lo == 0) && hi + lo < 8
    ensures hi <= |parts| && lo <= |parts|
    ensures ParseCompressed(parts, skip) == AssembleAround(parts, hi, lo)
  {
  }

  /** Non-empty groups with no colon or dot, as `'%x'` writes them. */
  predicate PlainGroups(hs: seq<string>) {
    forall k :: 0 <= k < |hs| ==> hs[k] != "" && ':' !in hs[k] && '.' !in hs[k]
  }

  /** The pieces around a `::` standing for groups `s` up to `e` read as the groups before and after it. */
  lemma CompressedGroups(hs: seq<string>, s: nat, e: nat)
    requires |hs| == 8 && s + 2 <= e <= 8 && PlainGroups(hs)
    ensures var skip := if s == 0 then 1 else s;
      && 1 <= skip < |Around(hs, s, e)| - 1
      && ParseCompressed(Around(hs, s, e), skip) == Assemble(hs[..s], e - s, hs[e..])
  {
    AroundEnds(hs, s, e);
    ParseCompressedOf(Around(hs, s, e), if s == 0 then 1 else s, s, 8 - e);
    AssembleAroundSlices(hs, s, e);
  }

  /** The compressed form starts with an empty group exactly when the run starts the list, and ends with one exactly when it ends it. */
  lemma AroundEnds(hs: seq<string>, s: nat, e: nat)
    requires |hs| == 8 && s + 2 <= e <= 8 && PlainGroups(hs)
    ensures |Around(hs, s, e)| == (if s == 0 then 1 else s) + 1 + (if e == 8 then 1 else 8 - e)
    ensures (Around(hs, s, e)[0] == "") == (s == 0)
    ensures (Around(hs, s, e)[|Around(hs, s, e)| - 1] == "") == (e == 8)
  {
    var pre := if s == 0 then [""] else hs[..s];
    var post := if e == 8 then [""] else hs[e..];
    var parts := Around(hs, s, e);
    assert parts == pre + [""] + post;
    assert hs[0] != "" && hs[7] != "";
    assert parts[0] == (if s == 0 then "" else hs[0]);
    assert parts[|parts| - 1] == (if e == 8 then "" else hs[7]);
  }

  /** Reading the first `s` and the last `8 - e` pieces of the compressed form reads the groups around the run. */
  lemma AssembleAroundSlices(hs: seq<string>, s: nat, e: nat)
    requires |hs| == 8 && s + 2 <= e <= 8
    ensures s <= |Around(hs, s, e)| && 8 - e <= |Around(hs, s, e)|
    ensures AssembleAround(Around(hs, s, e), s, 8 - e) == Assemble(hs[..s], e - s, hs[e..])
  {
    AroundSlices(hs, s, e);
  }

  /** The pieces before and after the `::` are the groups before and after the run. */
  lemma AroundSlices(hs: seq<string>, s: nat, e: nat)
    requires s <= e <= |hs|
    ensures |Around(hs, s, e)| >= |hs| - e
    ensures Around(hs, s, e)[..s] == hs[..s]
    ensures Around(hs, s, e)[|Around(hs, s, e)| - (|hs| - e)..] == hs[e..]
  {
    var post := if e == |hs| then [""] else hs[e..];
    var parts := Around(hs, s, e);
    assert parts[|parts| - |post|..] == post;
  }

  /** `Assemble` of texts that read as the groups `h` and `l`. */
  lemma AssembleOf(hi: seq<string>, skipped: nat, lo: seq<string>, h: seq<nat>, l: seq<nat>)
    requires |hi| + skipped + |lo| == 8
    requires ParseHextets(hi) == Some(h) && ParseHextets(lo) == Some(l)
    ensures Assemble(hi, skipped, lo) == Some(BaseValue(h + Zeros(skipped) + l, 0x1_0000))
  {
  }

  /** Slicing the groups commutes with writing them. */
  lemma HexStringsSlices(ds: seq<nat>, s: nat, e: nat)
    requires s <= e <= |ds|
    ensures HexStrings(ds)[..s] == HexStrings(ds[..s])
    ensures HexStrings(ds)[e..] == HexStrings(ds[e..])
  {
  }

  /** Slices of groups below a bound are below it. */
  lemma AllBelowSlices(ds: seq<nat>, b: nat, s: nat, e: nat)
    requires s <= e <= |ds| && AllBelow(ds, b)
    ensures AllBelow(ds[..s], b) && AllBelow(ds[e..], b)
  {
    assert forall i :: 0 <= i < |ds[e..]| ==> ds[e..][i] == ds[e + i];
  }

  /** Groups zero from `s` up to `e` are the groups before, that many zeros, and the groups after. */
  lemma AroundZeros(ds: seq<nat>, s: nat, e: nat)
    requires s <= e <= |ds|
    requires forall k :: s <= k < e ==> ds[k] == 0
    ensures ds == ds[..s] + Zeros(e - s) + ds[e..]
  {
    var r := ds[..s] + Zeros(e - s) + ds[e..];
    forall k | 0 <= k < |ds| ensures ds[k] == r[k] {
      if k < s {
        assert r[k] == ds[..s][k];
      } else if k < e {
        assert r[k] == Zeros(e - s)[k - s];
      } else {
        assert r[k] == ds[e..][k - e];
      }
    }
  }

  /** Reading the groups of `ds` around a run of zeros, with the run left out, gives the value of `ds`. */
  lemma AssembleGroups(ds: seq<nat>, s: nat, e: nat)
    requires |ds| == 8 && AllBelow(ds, 0x1_0000) && s <= e <= 8
    requires forall k :: s <= k < e ==> ds[k] == 0
    ensures Assemble(HexStrings(ds)[..s], e - s, HexStrings(ds)[e..]) == Some(BaseValue(ds, 0x1_0000))
  {
    HexStringsSlices(ds, s, e);
    AllBelowSlices(ds, 0x1_0000, s, e);
    ParseHextetsOfStrings(ds[..s]);
    ParseHextetsOfStrings(ds[e..]);
    AssembleOf(HexStrings(ds[..s]), e - s, HexStrings(ds[e..]), ds[..s], ds[e..]);
    AroundZeros(ds, s, e);
  }

  /** A group is written `"0"` exactly when it is zero. */
  lemma ZeroRunValues(ds: seq<nat>, s: nat, e: nat)
    requires ZeroRun(ZeroFlags(HexStrings(ds)), s, e)
    ensures forall k :: s <= k < e ==> ds[k] == 0
  {
    forall k | s <= k < e ensures ds[k] == 0 {
      assert ZeroFlags(HexStrings(ds))[k];
      assert HexStrings(ds)[k] == HexString(ds[k]);
    }
  }

  /** Every address reads back from its text. */
  lemma V6RoundTrip(x: nat)
    requires x < Pow2(128)
    ensures ParseV6(FormatV6(x)) == Some(x)
  {
    if BestRun(ZeroFlags(HexStrings(Digits(x, 0x1_0000, 8)))).len > 1 {
      V6RoundTripCompressed(x);
    } else {
      V6RoundTripFull(x);
    }
  }

  /** An address whose groups hold a run of two or more zeros reads back from its text. */
  lemma V6RoundTripCompressed(x: nat)
    requires x < Pow2(128)
    requires BestRun(ZeroFlags(HexStrings(Digits(x, 0x1_0000, 8)))).len > 1
    ensures ParseV6(FormatV6(x)) == Some(x)
  {
    var ds := Digits(x, 0x1_0000, 8);
    GroupsOf(x);
    HexStringsPlain(ds);
    var hs := HexStrings(ds);
    var best := BestRun(ZeroFlags(hs));
    var s, e := best.start, best.start + best.len;
    BestRunIsRun(ZeroFlags(hs));
    ZeroRunValues(ds, s, e);
    FormatV6Compressed(x);
    RoundTripCompressed(ds, s, e);
    var text := Join(Around(hs, s, e), ':');
    assert FormatV6(x) == text;
    assert ParseV6(text) == Some(x);
  }

  /** An address whose groups hold no run of two or more zeros reads back from its text. */
  lemma V6RoundTripFull(x: nat)
    requires x < Pow2(128)
    requires BestRun(ZeroFlags(HexStrings(Digits(x, 0x1_0000, 8)))).len <= 1
    ensures ParseV6(FormatV6(x)) == Some(x)
  {
    var ds := Digits(x, 0x1_0000, 8);
    GroupsOf(x);
    HexStringsPlain(ds);
    RoundTripFull(ds);
    var text := Join(HexStrings(ds), ':');
    assert FormatV6(x) == text;
    assert ParseV6(text) == Some(x);
  }

  /** When the groups hold a run of two or more zeros, the text writes the first longest one as `::`. */
  lemma FormatV6Compressed(x: nat)
    requires BestRun(ZeroFlags(HexStrings(Digits(x, 0x1_0000, 8)))).len > 1
    ensures var hs := HexStrings(Digits(x, 0x1_0000, 8));
      var b := BestRun(ZeroFlags(hs));
      FormatV6(x) == Join(Around(hs, b.start, b.start + b.len), ':')
  {
    CompressAround(HexStrings(Digits(x, 0x1_0000, 8)));
  }

  /** The eight groups of an address are below `2^16` and read back as it. */
  lemma GroupsOf(x: nat)
    requires x < Pow2(128)
    ensures AllBelow(Digits(x, 0x1_0000, 8), 0x1_0000)
    ensures BaseValue(Digits(x, 0x1_0000, 8), 0x1_0000) == x
  {
    AddressSizes();
    DigitsRoundTrip(x, 0x1_0000, 8);
  }

  /** The text of eight groups with the zero groups from `s` up to `e` written as `::` reads back as the groups' value. */
  lemma RoundTripCompressed(ds: seq<nat>, s: nat, e: nat)
    requires |ds| == 8 && AllBelow(ds, 0x1_0000) && s + 2 <= e <= 8
    requires PlainGroups(HexStrings(ds))
    requires forall k :: s <= k < e ==> ds[k] == 0
    ensures ParseV6(Join(Around(HexStrings(ds), s, e), ':')) == Some(BaseValue(ds, 0x1_0000))
  {
    var hs := HexStrings(ds);
    var parts := Around(hs, s, e);
    var text := Join(parts, ':');
    CompressedParts(hs, s, e);
    SplitJoin(parts, ':');
    JoinHasSeparator(parts, ':');
    ParseV6Compressed(text, parts, if s == 0 then 1 else s);
    CompressedGroups(hs, s, e);
    AssembleGroups(ds, s, e);
  }

  /** The text of eight groups with no `::` reads back as the groups' value. */
  lemma RoundTripFull(ds: seq<nat>)
    requires |ds| == 8 && AllBelow(ds, 0x1_0000)
    requires PlainGroups(HexStrings(ds))
    ensures ParseV6(Join(HexStrings(ds), ':')) == Some(BaseValue(ds, 0x1_0000))
  {
    var hs := HexStrings(ds);
    SplitJoin(hs, ':');
    JoinHasSeparator(hs, ':');
    ParseV6Full(Join(hs, ':'), hs);
    AssembleGroups(ds, 8, 8);
    assert hs[..8] == hs && hs[8..] == [];
  }

  /** The pieces of a compressed form: colon-free, at most eight, and one interior empty group where the `::` is. */
  lemma CompressedParts(hs: seq<string>, s: nat, e: nat)
    requires |hs| == 8 && s + 2 <= e <= 8 && PlainGroups(hs)
    ensures 3 <= |Around(hs, s, e)| <= 8
    ensures forall i :: 0 <= i < |Around(hs, s, e)| ==> ':' !in Around(hs, s, e)[i]
    ensures '.' !in Around(hs, s, e)[|Around(hs, s, e)| - 1]
    ensures InteriorEmpties(Around(hs, s, e), 1) == [if s == 0 then 1 else s]
  {
    var pre := if s == 0 then [""] else hs[..s];
    var post := if e == 8 then [""] else hs[e..];
    var parts := Around(hs, s, e);
    assert parts == pre + [""] + post;
    forall i | 0 <= i < |parts| ensures ':' !in parts[i] && '.' !in parts[i] && (i < |parts| - 1 && i != |pre| && i >= 1 ==> parts[i] != "") {
      if i < |pre| {
        assert s != 0 ==> parts[i] == hs[i];
      } else if i > |pre| {
        assert e != 8 ==> parts[i] == hs[e + i - |pre| - 1];
      }
    }
    InteriorEmptiesOne(parts, 1, |pre|);
  }
}
