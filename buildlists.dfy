/**
 * The list writers of the build scripts: `write_blocklist` and the three
 * `build_*` functions of buildCategorizedLists.py, and `create_master_list`
 * of buildIPList.py. A written file is modelled as the text written to it;
 * the UTC timestamp is a parameter.
 */
module BuildLists {
  import opened Wrappers
  import opened Text
  import opened Seqs
  import opened StrOrder
  import opened Feeds

  /** The eight header lines `write_blocklist` writes before `count` entries. */
  function BlocklistHeader(title: string, timestamp: string, description: string, sources: string, count: nat): (r: seq<string>)
    ensures |r| == 8 && r[5] == "# Total Unique Entries: " + NatToString(count)
  {
    [ "# " + title,
      "# Last Updated: " + timestamp + " UTC",
      "# Description: " + description,
      "# Format: One IP or CIDR range per line",
      "# Sources: " + sources,
      "# Total Unique Entries: " + NatToString(count),
      "#",
      "" ]
  }

  /**
   * `write_blocklist(filename, ips, title, description, sources)`: the
   * entries `sorted(set(ips))` it returns, and the text of the file: the
   * header, then one entry per line.
   */
  method WriteBlocklist(ips: seq<string>, title: string, description: string, sources: string, timestamp: string)
    returns (file: string, unique: seq<string>)
    ensures unique == SortedUnique(ips)
    ensures StrictlyAscending(unique) && Elems(unique) == Elems(ips) && |unique| <= |ips|
    ensures file == Lines(BlocklistHeader(title, timestamp, description, sources, |unique|) + unique)
  {
    unique := SortedUnique(ips);
    SortedUniqueLength(ips);
    file := WriteLines(BlocklistHeader(title, timestamp, description, sources, |unique|), unique);
  }

  /*
   * The fixed texts of the header hold no newline, one literal at a time.
   * Without these lemmas BlocklistHeaderLines costs about 1500000 resource
   * units, close to the limit of 2000000; with them, about 330000.
   */
  lemma HashLine() ensures '\n' !in "# " {}
  lemma UpdatedLine() ensures '\n' !in "# Last Updated: " {}
  lemma UtcLine() ensures '\n' !in " UTC" {}
  lemma DescriptionLine() ensures '\n' !in "# Description: " {}
  lemma FormatLine() ensures '\n' !in "# Format: One IP or CIDR range per line" {}
  lemma SourcesLine() ensures '\n' !in "# Sources: " {}
  lemma EntriesLine() ensures '\n' !in "# Total Unique Entries: " {}

  /** A decimal number never holds a newline. */
  lemma NumberLine(n: nat)
    ensures '\n' !in NatToString(n)
  {
  }

  /** With single-line title, timestamp, description and sources, every header line is one line. */
  lemma BlocklistHeaderLines(title: string, timestamp: string, description: string, sources: string, count: nat)
    requires NoNewlines([title, timestamp, description, sources])
    ensures NoNewlines(BlocklistHeader(title, timestamp, description, sources, count))
  {
    assert '\n' !in title && '\n' !in timestamp && '\n' !in description && '\n' !in sources by {
      var ps := [title, timestamp, description, sources];
      assert ps[0] == title && ps[1] == timestamp && ps[2] == description && ps[3] == sources;
    }
    HashLine();
    UpdatedLine();
    UtcLine();
    DescriptionLine();
    FormatLine();
    SourcesLine();
    EntriesLine();
    NumberLine(count);
  }

  /** Header lines and entries without newlines read back as written. */
  lemma ReadsBack(header: seq<string>, entries: seq<string>)
    requires NoNewlines(header) && NoNewlines(entries)
    ensures SplitLines(Lines(header + entries)) == header + entries
  {
    var all := header + entries;
    forall k | 0 <= k < |all| ensures '\n' !in all[k] {
      if k < |header| {
        assert all[k] == header[k];
      } else {
        assert all[k] == entries[k - |header|];
      }
    }
    SplitLinesOfLines(all);
  }

  /** Deduplicating keeps only strings of the input. */
  lemma SortedUniqueLines(ips: seq<string>)
    requires NoNewlines(ips)
    ensures NoNewlines(SortedUnique(ips))
  {
    var unique := SortedUnique(ips);
    forall k | 0 <= k < |unique| ensures '\n' !in unique[k] {
      assert unique[k] in Elems(ips);
    }
  }

  /**
   * Read back line by line, a file `write_blocklist` wrote holds the eight
   * header lines, then exactly the entries it returned, and the
   * `Total Unique Entries` line gives the number of entry lines.
   */
  lemma BlocklistReadsBack(ips: seq<string>, title: string, description: string, sources: string, timestamp: string)
    requires NoNewlines([title, timestamp, description, sources]) && NoNewlines(ips)
    ensures var unique := SortedUnique(ips);
      var ls := SplitLines(Lines(BlocklistHeader(title, timestamp, description, sources, |unique|) + unique));
      && |ls| == 8 + |unique|
      && ls[8..] == unique
      && ls[5] == "# Total Unique Entries: " + NatToString(|ls| - 8)
  {
    var unique := SortedUnique(ips);
    var header := BlocklistHeader(title, timestamp, description, sources, |unique|);
    BlocklistHeaderLines(title, timestamp, description, sources, |unique|);
    SortedUniqueLines(ips);
    hide *;
    ReadsBack(header, unique);
    assert (header + unique)[8..] == unique;
    assert (header + unique)[5] == header[5];
  }

  const BotnetTitle := "Botnet Command & Control Blocklist"
  const BotnetDescription := "IP addresses of botnet C&C servers and known compromised hosts"
  const BotnetSources := "Feodo Tracker (abuse.ch), blocklist.de"

  /**
   * `build_botnet_list()`: the Feodo Tracker entries then the blocklist.de
   * `bots` entries, written to `botnet.txt`.
   */
  method BuildBotnetList(feodo: Option<seq<string>>, bots: Option<seq<string>>, timestamp: string)
    returns (allIps: seq<string>, file: string)
    ensures allIps == FeedEntries(feodo, PlainEntry) + FeedEntries(bots, PlainEntry)
    ensures file == Lines(BlocklistHeader(BotnetTitle, timestamp, BotnetDescription, BotnetSources, |SortedUnique(allIps)|)
      + SortedUnique(allIps))
  {
    hide *;
    allIps := [];
    var ips := FetchFeodoTracker(feodo);
    allIps := allIps + ips;
    ips := FetchBlocklistDe(bots);
    allIps := allIps + ips;
    var unique;
    file, unique := WriteBlocklist(allIps, BotnetTitle, BotnetDescription, BotnetSources, timestamp);
  }

  const MalwareTitle := "Malware Distribution IP Blocklist"
  const MalwareDescription := "IP addresses known to distribute malware, ransomware, or other malicious software"
  const MalwareSources := "CINS Score, Emerging Threats, Spamhaus DROP"

  /**
   * `build_malware_list()`: the CINS Score, Emerging Threats and Spamhaus
   * DROP entries in that order, written to `malware.txt`.
   */
  method BuildMalwareList(cins: Option<seq<string>>, emerging: Option<seq<string>>, spamhaus: Option<seq<string>>, timestamp: string)
    returns (allIps: seq<string>, file: string)
    ensures allIps == FeedEntries(cins, CinsEntry) + FeedEntries(emerging, PlainEntry) + FeedEntries(spamhaus, SpamhausEntry)
    ensures file == Lines(BlocklistHeader(MalwareTitle, timestamp, MalwareDescription, MalwareSources, |SortedUnique(allIps)|)
      + SortedUnique(allIps))
  {
    hide *;
    allIps := [];
    var ips := FetchCinsscoreMalware(cins);
    allIps := allIps + ips;
    ips := FetchEmergingThreats(emerging);
    allIps := allIps + ips;
    ips := FetchSpamhausDrop(spamhaus);
    allIps := allIps + ips;
    var unique;
    file, unique := WriteBlocklist(allIps, MalwareTitle, MalwareDescription, MalwareSources, timestamp);
  }

  const AbuseTitle := "Abuse & Spam IP Blocklist"
  const AbuseDescription := "IP addresses associated with spam, port scanning, brute force attacks, and general abuse"
  const AbuseSources := "blocklist.de (SSH, Mail, Apache, Bruteforce)"

  /**
   * `build_abuse_list()`: the blocklist.de `ssh`, `mail`, `apache` and
   * `bruteforce` entries in that order, written to `abuse.txt`.
   */
  method BuildAbuseList(ssh: Option<seq<string>>, mail: Option<seq<string>>, apache: Option<seq<string>>,
                        bruteforce: Option<seq<string>>, timestamp: string)
    returns (allIps: seq<string>, file: string)
    ensures allIps == FeedEntries(ssh, PlainEntry) + FeedEntries(mail, PlainEntry)
      + FeedEntries(apache, PlainEntry) + FeedEntries(bruteforce, PlainEntry)
    ensures file == Lines(BlocklistHeader(AbuseTitle, timestamp, AbuseDescription, AbuseSources, |SortedUnique(allIps)|)
      + SortedUnique(allIps))
  {
    hide *;
    allIps := [];
    var ips := FetchBlocklistDe(ssh);
    allIps := allIps + ips;
    ips := FetchBlocklistDe(mail);
    allIps := allIps + ips;
    ips := FetchBlocklistDe(apache);
    allIps := allIps + ips;
    ips := FetchBlocklistDe(bruteforce);
    allIps := allIps + ips;
    var unique;
    file, unique := WriteBlocklist(allIps, AbuseTitle, AbuseDescription, AbuseSources, timestamp);
  }

  /** The four header lines of `primary_blocklist.txt`. */
  function MasterHeader(timestamp: string, count: nat): (r: seq<string>)
    ensures |r| == 4
  {
    [ "# Primary IP Blocklist",
      "# Sources: IPsum (2+ hits), AlienVault OTX",
      "# Last Updated: " + timestamp + " UTC",
      "# Total Unique IPs: " + NatToString(count) ]
  }

  lemma ElemsConcat(a: seq<string>, b: seq<string>)
    ensures Elems(a + b) == Elems(a) + Elems(b)
  {
    assert forall x :: x in a + b <==> x in a || x in b;
  }

  /**
   * `create_master_list(ipsum_ips, alienvault_ips)`: the union of both
   * lists, each address once, ascending; the text of
   * `primary_blocklist.txt`; and the reported number of duplicates removed,
   * which is never negative and is zero exactly when no address occurs
   * twice across the two lists.
   */
  method CreateMasterList(ipsumIps: seq<string>, alienvaultIps: seq<string>, timestamp: string)
    returns (file: string, sortedIps: seq<string>, duplicates: int)
    ensures sortedIps == SortedUnique(ipsumIps + alienvaultIps)
    ensures StrictlyAscending(sortedIps) && Elems(sortedIps) == Elems(ipsumIps) + Elems(alienvaultIps)
    ensures file == Lines(MasterHeader(timestamp, |sortedIps|) + sortedIps)
    ensures duplicates == |ipsumIps| + |alienvaultIps| - |sortedIps|
    ensures duplicates >= 0
    ensures duplicates == 0 <==> NoDups(ipsumIps + alienvaultIps)
  {
    var allIps := ipsumIps + alienvaultIps;
    sortedIps := SortedUnique(allIps);
    ElemsConcat(ipsumIps, alienvaultIps);
    SortedUniqueLength(allIps);
    file := WriteLines(MasterHeader(timestamp, |sortedIps|), sortedIps);
    duplicates := |ipsumIps| + |alienvaultIps| - |sortedIps|;
  }
}
