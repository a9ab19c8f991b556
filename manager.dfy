/**
 * `BlocklistManager` (examples/blocklist_manager.py): a set of IPv4 and
 * IPv6 networks filled from blocklist files, queried for membership,
 * sorted, exported and counted.
 *
 * A blocklist directory is a map from file name to the file's lines; a
 * name that is not in the map is a file that does not exist.
 */
module Manager {
  import opened Wrappers
  import opened Text
  import opened Seqs
  import opened IpBase
  import opened IpNetwork
  import opened NetSort
  import opened Export

  /** A line `load_blocklist` skips before parsing: empty after stripping, or a `#` comment. */
  predicate Skipped(line: string) {
    var t := Strip(line);
    t == "" || StartsWith(t, "#")
  }

  /**
   * What one line of a blocklist file adds: the network `ip_network(line,
   * strict=False)` reads from the stripped line, or nothing for a skipped
   * line or one that raises `ValueError`.
   */
  function LineNetwork(line: string): (r: Option<Net>)
    ensures r.Some? ==> !Skipped(line)
  {
    if Skipped(line) then None else ParseNetwork(Strip(line))
  }

  /** The networks the lines of a file add. */
  function Networks(lines: seq<string>): (r: set<Net>)
  {
    if lines == [] then {}
    else
      var last := lines[|lines| - 1];
      Networks(lines[..|lines| - 1]) + if LineNetwork(last).Some? then {LineNetwork(last).value} else {}
  }

  /** The count `load_blocklist` returns: the lines that were read as a network, repeats included. */
  function AcceptedCount(lines: seq<string>): (r: nat)
    ensures r <= |lines|
  {
    if lines == [] then 0
    else
      var last := lines[|lines| - 1];
      AcceptedCount(lines[..|lines| - 1]) + if LineNetwork(last).Some? then 1 else 0
  }

  lemma NetworksOfNone()
    ensures Networks([]) == {} && AcceptedCount([]) == 0
  {
  }

  lemma LineNetworkOf(line: string)
    ensures var t := Strip(line);
      LineNetwork(line) == if t == "" || StartsWith(t, "#") then None else ParseNetwork(t)
  {
  }

  lemma NetworksStep(lines: seq<string>, line: string)
    ensures Networks(lines + [line]) == Networks(lines) + if LineNetwork(line).Some? then {LineNetwork(line).value} else {}
    ensures AcceptedCount(lines + [line]) == AcceptedCount(lines) + if LineNetwork(line).Some? then 1 else 0
  {
    assert (lines + [line])[..|lines|] == lines;
  }

  /** Every network a file adds is well-formed: in range, with its host bits cleared. */
  lemma {:induction false} NetworksValid(lines: seq<string>)
    ensures forall n :: n in Networks(lines) ==> ValidNet(n)
  {
    if lines != [] {
      var last := lines[|lines| - 1];
      NetworksValid(lines[..|lines| - 1]);
      if LineNetwork(last).Some? {
        ParseNetworkValid(Strip(last));
      }
    }
  }

  /**
   * A file adds at most as many networks as the count says: the count
   * includes lines whose network was already read.
   */
  lemma {:induction false} NetworksBound(lines: seq<string>)
    ensures |Networks(lines)| <= AcceptedCount(lines)
  {
    if lines != [] {
      NetworksBound(lines[..|lines| - 1]);
    }
  }

  /**
   * A skipped line, or one that is no network, changes neither the
   * networks a file adds nor the count, wherever it stands in the file.
   */
  lemma {:induction false} RejectedLineIgnored(before: seq<string>, line: string, after: seq<string>)
    requires LineNetwork(line) == None
    ensures Networks(before + [line] + after) == Networks(before + after)
    ensures AcceptedCount(before + [line] + after) == AcceptedCount(before + after)
  {
    hide *;
    if after == [] {
      assert before + [line] + after == before + [line];
      assert before + after == before;
      NetworksStep(before, line);
    } else {
      var init, last := after[..|after| - 1], after[|after| - 1];
      RejectedLineIgnored(before, line, init);
      assert before + [line] + after == (before + [line] + init) + [last];
      assert before + after == (before + init) + [last];
      NetworksStep(before + [line] + init, last);
      NetworksStep(before + init, last);
    }
  }

  /** `Path.glob("*.txt")` keeps the directory entries whose names end in `.txt`. */
  predicate IsTxt(name: string) {
    |name| >= 4 && name[|name| - 4..] == ".txt"
  }

  /** The networks one directory entry adds to `load_all_blocklists`. */
  function FileNetworks(dir: map<string, seq<string>>, name: string): set<Net> {
    if IsTxt(name) && name in dir then Networks(dir[name]) else {}
  }

  /** The count one directory entry adds to `load_all_blocklists`. */
  function FileCount(dir: map<string, seq<string>>, name: string): nat {
    if IsTxt(name) && name in dir then AcceptedCount(dir[name]) else 0
  }

  /** The networks the `.txt` files among the entries add, in the order listed. */
  function DirNetworks(dir: map<string, seq<string>>, names: seq<string>): set<Net> {
    if names == [] then {}
    else DirNetworks(dir, names[..|names| - 1]) + FileNetworks(dir, names[|names| - 1])
  }

  /** The total `load_all_blocklists` returns: the sum of the counts of the `.txt` files. */
  function DirCount(dir: map<string, seq<string>>, names: seq<string>): nat {
    if names == [] then 0
    else DirCount(dir, names[..|names| - 1]) + FileCount(dir, names[|names| - 1])
  }

  /** Loading a whole directory adds no more networks than the total it reports. */
  lemma {:induction false} DirNetworksBound(dir: map<string, seq<string>>, names: seq<string>)
    ensures |DirNetworks(dir, names)| <= DirCount(dir, names)
  {
    if names != [] {
      var name := names[|names| - 1];
      DirNetworksBound(dir, names[..|names| - 1]);
      if IsTxt(name) && name in dir {
        NetworksBound(dir[name]);
      }
    }
  }

  /** Entries whose names do not end in `.txt` add nothing, wherever they are listed. */
  lemma {:induction false} NonTxtIgnored(dir: map<string, seq<string>>, names: seq<string>, name: string)
    requires !IsTxt(name)
    ensures DirNetworks(dir, names + [name]) == DirNetworks(dir, names)
    ensures DirCount(dir, names + [name]) == DirCount(dir, names)
  {
    assert (names + [name])[..|names|] == names;
  }

  /** The number of addresses in `ips` that `is_blocked` reports blocked. */
  function BlockedCount(s: set<Net>, ips: seq<string>): (r: nat)
    ensures r <= |ips|
  {
    if ips == [] then 0
    else BlockedCount(s, ips[..|ips| - 1]) + if BlockedBy(s, ips[|ips| - 1]) then 1 else 0
  }

  /** `is_blocked(ip)[0]`: the text is an address and some stored network contains it. */
  predicate BlockedBy(s: set<Net>, ip: string) {
    ParseAddress(ip).Some? && exists n :: n in s && Contains(n, ParseAddress(ip).value)
  }

  /** `get_statistics()`. */
  datatype Statistics = Statistics(total: nat, ipv4: nat, ipv6: nat)

  /** A stored `/0` network blocks every address of its family. */
  lemma ZeroPrefixBlocksFamily(s: set<Net>, n: Net, ip: string)
    requires n in s && ValidNet(n) && n.prefix == 0
    requires ParseAddress(ip).Some? && ParseAddress(ip).value.version == n.version
    ensures BlockedBy(s, ip)
  {
    ContainsAllAtZero(n, ParseAddress(ip).value);
  }

  /** With a single stored full-length network, exactly its own address is blocked. */
  lemma FullPrefixBlocksOnlyItself(n: Net, ip: string)
    requires ValidNet(n) && n.prefix == Width(n.version)
    ensures BlockedBy({n}, ip) <==> ParseAddress(ip) == Some(Address(n.version, n.addr))
  {
    if ParseAddress(ip).Some? {
      var a := ParseAddress(ip).value;
      if a.version == n.version {
        ContainsOnlySelfAtFull(n, a);
      }
    }
  }

  /** Text that is no address is never counted as blocked. */
  lemma InvalidNeverCounted(s: set<Net>, ips: seq<string>, ip: string)
    requires ParseAddress(ip) == None
    ensures BlockedCount(s, ips + [ip]) == BlockedCount(s, ips)
  {
    assert (ips + [ip])[..|ips|] == ips;
  }

  /** A scope id after an IPv6 address changes nothing about whether it is blocked. */
  lemma ScopedBlocked(s: set<Net>, a: string, scope: string)
    requires ParseAddress(a).Some? && ParseAddress(a).value.version == V6 && '%' !in a
    requires scope != "" && '%' !in scope && '/' !in scope
    ensures BlockedBy(s, a + "%" + scope) <==> BlockedBy(s, a)
  {
    ScopedAddress(a, scope);
  }

  /**
   * Loading the plain export of a set of well-formed networks gives back
   * exactly that set, and counts one line per network.
   */
  lemma PlainExportReloads(s: set<Net>)
    requires forall n :: n in s ==> ValidNet(n)
    ensures var lines := SplitLines(ExportText("plain", Names(SortNetworks(s)), |s|));
      Networks(lines) == s && AcceptedCount(lines) == |s|
  {
    var nets := SortNetworks(s);
    NamesNoNewline(nets);
    PlainExport(Names(nets), |s|);
    NamesReload(nets);
  }

  lemma {:induction false} NamesReload(nets: seq<Net>)
    requires forall k :: 0 <= k < |nets| ==> ValidNet(nets[k])
    ensures Networks(Names(nets)) == Elems(nets)
    ensures AcceptedCount(Names(nets)) == |nets|
  {
    if nets != [] {
      hide *;
      var init := nets[..|nets| - 1];
      var n := nets[|nets| - 1];
      NamesReload(init);
      NamesSnoc(nets);
      NetworksStep(Names(init), FormatNet(n));
      NetLine(n);
      ElemsSnoc(nets);
    }
  }

  lemma ElemsSnoc<T>(xs: seq<T>)
    requires xs != []
    ensures Elems(xs) == Elems(xs[..|xs| - 1]) + {xs[|xs| - 1]}
  {
    assert xs == xs[..|xs| - 1] + [xs[|xs| - 1]];
  }

  lemma NamesSnoc(nets: seq<Net>)
    requires nets != []
    ensures Names(nets) == Names(nets[..|nets| - 1]) + [FormatNet(nets[|nets| - 1])]
  {
    hide FormatNet;
    var init := nets[..|nets| - 1];
    assert forall k :: 0 <= k < |init| ==> Names(nets)[k] == Names(init)[k];
  }

  /** The text of a well-formed network, as a line of a file, adds that network. */
  lemma NetLine(n: Net)
    requires ValidNet(n)
    ensures LineNetwork(FormatNet(n)) == Some(n)
  {
    hide ParseNetwork, FormatNet;
    var t := FormatNet(n);
    FormatNetChars(n);
    assert !IsSpace(t[0]) && !IsSpace(t[|t| - 1]) && t[0] != '#';
    StripUnchanged(t);
    NetworkRoundTrip(n);
  }

  /** `BlocklistManager`: the stored networks, `self.blocked_ips`. */
  class BlocklistManager {
    var blockedIps: set<Net>

    /** Every stored network is well-formed. */
    ghost predicate Valid()
      reads this
    {
      forall n :: n in blockedIps ==> ValidNet(n)
    }

    /** `BlocklistManager()`: nothing stored yet. */
    constructor ()
      ensures blockedIps == {} && Valid()
    {
      blockedIps := {};
    }

    /**
     * `load_blocklist(filename)`: 0 and no change when the file does not
     * exist; otherwise every network the file's lines are read as is added
     * and their number returned.
     */
    method LoadBlocklist(dir: map<string, seq<string>>, filename: string) returns (count: nat)
      requires Valid()
      modifies this
      ensures Valid()
      ensures filename !in dir ==> count == 0 && blockedIps == old(blockedIps)
      ensures filename in dir ==>
        blockedIps == old(blockedIps) + Networks(dir[filename]) && count == AcceptedCount(dir[filename])
    {
      hide ParseNetwork, Networks, AcceptedCount, LineNetwork, Strip;
      if filename !in dir {
        return 0;
      }
      var lines := dir[filename];
      count := 0;
      NetworksOfNone();
      assert lines[..0] == [];
      for i := 0 to |lines|
        invariant blockedIps == old(blockedIps) + Networks(lines[..i])
        invariant count == AcceptedCount(lines[..i])
        invariant Valid()
      {
        var line := Strip(lines[i]);
        LineNetworkOf(lines[i]);
        NetworksStep(lines[..i], lines[i]);
        assert lines[..i + 1] == lines[..i] + [lines[i]];
        if line == "" || StartsWith(line, "#") {
          continue;
        }
        match ParseNetwork(line)
        case Some(network) =>
          ParseNetworkValid(line);
          blockedIps := blockedIps + {network};
          count := count + 1;
        case None =>
      }
      assert lines[..|lines|] == lines;
    }

    /**
     * `load_all_blocklists()`: `load_blocklist` of every `.txt` entry of
     * the directory listing, in the order listed; the sum of their counts.
     */
    method LoadAllBlocklists(dir: map<string, seq<string>>, listing: seq<string>) returns (total: nat)
      requires Valid()
      modifies this
      ensures Valid()
      ensures blockedIps == old(blockedIps) + DirNetworks(dir, listing)
      ensures total == DirCount(dir, listing)
    {
      total := 0;
      for i := 0 to |listing|
        invariant Valid()
        invariant blockedIps == old(blockedIps) + DirNetworks(dir, listing[..i])
        invariant total == DirCount(dir, listing[..i])
      {
        assert listing[..i + 1][..i] == listing[..i];
        if IsTxt(listing[i]) {
          var count := LoadBlocklist(dir, listing[i]);
          total := total + count;
        }
      }
      assert listing[..|listing|] == listing;
    }

    /** `is_blocked(ip)`: whether some stored network contains the address, and which. */
    method IsBlocked(ip: string) returns (blocked: bool, reason: string)
      requires Valid()
      ensures blocked <==> BlockedBy(blockedIps, ip)
      ensures ParseAddress(ip).None? ==> reason == "Invalid IP: " + AddressError(ip)
      ensures ParseAddress(ip).Some? && !blocked ==> reason == ""
      ensures blocked ==> exists n :: n in blockedIps && Contains(n, ParseAddress(ip).value) && reason == FormatNet(n)
      ensures blocked ==>
        && ParseNetwork(reason).Some?
        && ParseNetwork(reason).value in blockedIps
        && Contains(ParseNetwork(reason).value, ParseAddress(ip).value)
    {
      match ParseAddress(ip)
      case None =>
        return false, "Invalid IP: " + AddressError(ip);
      case Some(a) =>
        var rest := blockedIps;
        while rest != {}
          invariant rest <= blockedIps
          invariant forall n :: n in blockedIps - rest ==> !Contains(n, a)
          decreases |rest|
        {
          var network :| network in rest;
          if Contains(network, a) {
            NetworkRoundTrip(network);
            return true, FormatNet(network);
          }
          rest := rest - {network};
        }
        return false, "";
    }

    /** `check_list(ip_list)`, its totals: how many of the addresses are blocked and how many allowed. */
    method CheckList(ipList: seq<string>) returns (blockedCount: nat, allowed: nat)
      requires Valid()
      ensures blockedCount == BlockedCount(blockedIps, ipList)
      ensures blockedCount + allowed == |ipList|
    {
      hide ParseNetwork, FormatNet, ParseAddress;
      blockedCount := 0;
      for i := 0 to |ipList|
        invariant blockedCount == BlockedCount(blockedIps, ipList[..i])
      {
        var isBlocked, _ := IsBlocked(ipList[i]);
        assert ipList[..i + 1][..i] == ipList[..i];
        if isBlocked {
          blockedCount := blockedCount + 1;
        }
      }
      assert ipList[..|ipList|] == ipList;
      allowed := |ipList| - blockedCount;
    }

    /** `export_to_format(output_file, format_type)`: the text written to the file. */
    method ExportToFormat(formatType: string) returns (text: string)
      ensures text == ExportText(formatType, Names(SortNetworks(blockedIps)), |blockedIps|)
    {
      hide *;
      var sortedNetworks := SortNetworks(blockedIps);
      match LineFormatOf(formatType)
      case Some(f) =>
        text := Lines(f.header);
        assert EntryLines(f.prefix, Names(sortedNetworks[..0]), f.suffix) == [];
        assert f.header + [] == f.header;
        for i := 0 to |sortedNetworks|
          invariant text == Lines(f.header + EntryLines(f.prefix, Names(sortedNetworks[..i]), f.suffix))
        {
          var line := f.prefix + FormatNet(sortedNetworks[i]) + f.suffix;
          EntryLinesStep(f, sortedNetworks, i);
          LinesAppend(f.header + EntryLines(f.prefix, Names(sortedNetworks[..i]), f.suffix), [line]);
          OneLine(line);
          text := text + line + "\n";
        }
        assert sortedNetworks[..|sortedNetworks|] == sortedNetworks;
        LinesAppend(f.header + EntryLines(f.prefix, Names(sortedNetworks), f.suffix), f.footer);
        text := text + Lines(f.footer);
        ExportTextOf(formatType, f, Names(sortedNetworks), |blockedIps|);
      case None =>
        if formatType == "json" {
          text := Join(JsonLines(Names(sortedNetworks), |blockedIps|), '\n');
          JsonTextOf(formatType, Names(sortedNetworks), |blockedIps|);
        } else {
          text := "";
        }
    }

    /** `get_statistics()`: the stored networks, and those of each family. */
    function GetStatistics(): (r: Statistics)
      reads this
      ensures r.ipv4 == |Family(blockedIps, V4)| && r.ipv6 == |Family(blockedIps, V6)|
      ensures r.total == r.ipv4 + r.ipv6 == |blockedIps|
    {
      var v4 := Family(blockedIps, V4);
      var v6 := Family(blockedIps, V6);
      FamiliesPartition(blockedIps);
      Statistics(|blockedIps|, |v4|, |v6|)
    }
  }

  /** Every network is of one of the two families, so their counts add up to the total. */
  lemma FamiliesPartition(s: set<Net>)
    ensures |Family(s, V4)| + |Family(s, V6)| == |s|
  {
    var v4, v6 := Family(s, V4), Family(s, V6);
    assert s == v4 + v6;
    assert v4 * v6 == {};
  }

  lemma OneLine(line: string)
    ensures Lines([line]) == line + "\n"
  {
  }

  lemma EntryLinesStep(f: LineFormat, nets: seq<Net>, i: nat)
    requires i < |nets|
    ensures f.header + EntryLines(f.prefix, Names(nets[..i + 1]), f.suffix)
      == (f.header + EntryLines(f.prefix, Names(nets[..i]), f.suffix)) + [f.prefix + FormatNet(nets[i]) + f.suffix]
  {
    hide FormatNet;
    var a := EntryLines(f.prefix, Names(nets[..i + 1]), f.suffix);
    var b := EntryLines(f.prefix, Names(nets[..i]), f.suffix);
    assert a == b + [f.prefix + FormatNet(nets[i]) + f.suffix];
  }
}
