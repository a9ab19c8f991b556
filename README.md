# IP-Security blocklist tools, modelled in Dafny

IP-Security publishes IP blocklists and ships two kinds of tools:

- **`BlocklistManager`** (examples/blocklist_manager.py) keeps a set of IPv4 and IPv6 networks. It does the following:
  - reads them from blocklist files, one address or CIDR range per line, skipping blank lines, `#` comments and invalid entries;
  - answers whether an address is blocked and counts the blocked addresses of a list;
  - exports the set as plain text, iptables rules, an nginx `geo` block, an Apache `Require` block or JSON;
  - reports per-family statistics.
- **The build scripts** (build/buildCategorizedLists.py and build/buildIPList.py) download threat feeds:
  - They filter the lines of each feed.
  - They write deduplicated, sorted, categorized blocklists (botnet, malware, abuse) with a commented header.
  - They write a merged primary list.

The modules are:

| module | file | what it holds |
|---|---|---|
| `Wrappers` | wrappers.dfy | `Option` |
| `Text` | text.dfy | Python's `strip()`, `startswith()`, `split(sep)`, `split()`, `join`; line writing and reading; decimal and hexadecimal digits |
| `Seqs` | seqs.dfy | element sets, duplicates, subsequences |
| `StrOrder` | strorder.dfy | Python's ordering of strings; `sorted(set(xs))` |
| `IpBase` | ipbase.dfy | addresses, networks, prefix masks, containment; netmask and hostmask values |
| `Ipv4` | ipv4.dfy | the text forms of IPv4 addresses and of dotted masks, as `ipaddress` reads and writes them |
| `Ipv6` | ipv6.dfy | the text forms of IPv6 addresses: `::` compression, an embedded IPv4 tail, `'%x'` groups |
| `IpNetwork` | ipnetwork.dfy | `ip_network(s, strict=False)`, `ip_address(s)` and `str()` of both |
| `NetSort` | netsort.dfy | the order `sorted()` gives networks; `_sort_networks` |
| `Export` | export.dfy | the text each export format writes |
| `Manager` | manager.dfy | the `BlocklistManager` class, with the set `blocked_ips` as a field updated in place |
| `Feeds` | feeds.dfy | the per-line loops of the seven feed fetchers; the feed files of buildIPList.py |
| `BuildLists` | buildlists.dfy | `write_blocklist`, the `build_*` functions, `create_master_list` |

The model represents the outside world as follows:

- The blocklist directory is a map from file name to the file's lines.
- The order in which `Path.glob` lists the directory is a parameter.
- A feed's HTTP response is its lines, or `None` when the request failed.
- The UTC timestamp written into headers is a string parameter.
- Every written file is the text written to it.

The methods that loop in the source loop here too, and each is proved against a specification function. The properties the tools promise are lemmas about those functions:

- loaded networks are well-formed and the set grows by no more than the count;
- exported text reads back as the stored set;
- the network order is the only one of its kind;
- the written lists are strictly ascending and duplicate-free, and their header counts match the entries;
- the feeds keep exactly the lines their rules describe.

## Model

| member | source | states |
|---|---|---|
| Manager.Networks | examples/blocklist_manager.py:31-46 | defines the networks a file adds: those of the lines `LineNetwork` accepts, in file order; its properties are the lemmas below |
| Manager.LineNetwork | examples/blocklist_manager.py:34-46 | a line gives a network only when, stripped, it is neither empty nor a `#` comment; the network is what `ip_network(line, strict=False)` reads, and nothing when that raises |
| Manager.AcceptedCount | examples/blocklist_manager.py:31-44 | the count of accepted lines is at most the number of lines |
| Manager.RejectedLineIgnored | examples/blocklist_manager.py:34-46 | a blank, comment or invalid line, wherever it occurs, changes neither the networks read nor the count |
| Manager.NetworksValid | examples/blocklist_manager.py:42-43 | every network a file adds is well-formed: prefix within 0..32 or 0..128, address in range, host bits cleared |
| Manager.NetworksBound | examples/blocklist_manager.py:31-48 | a file adds at most as many networks as the count it returns, because repeats are counted |
| Manager.BlocklistManager.constructor | examples/blocklist_manager.py:19-21 | a new manager holds no network |
| Manager.BlocklistManager.LoadBlocklist | examples/blocklist_manager.py:23-48 | a missing file returns 0 and changes nothing; otherwise the set becomes the old set plus the file's networks, and the count is the number of accepted lines; all stored networks stay well-formed |
| Manager.IsTxt | examples/blocklist_manager.py:54 | defines the name filter of `glob("*.txt")`: the name ends in `.txt` |
| Manager.FileNetworks | examples/blocklist_manager.py:54-56 | defines the networks one directory entry adds: those of the file when its name passes `IsTxt` and it exists, none otherwise |
| Manager.FileCount | examples/blocklist_manager.py:54-58 | defines the count one directory entry adds to `total`: the file's accepted lines, or 0 |
| Manager.DirNetworks | examples/blocklist_manager.py:54-58 | defines the networks `load_all_blocklists` adds: the union of every listed entry's networks |
| Manager.DirCount | examples/blocklist_manager.py:52-60 | defines the total `load_all_blocklists` returns: the sum of every listed entry's count |
| Manager.DirNetworksBound | examples/blocklist_manager.py:50-60 | loading a directory adds at most as many networks as the total it returns |
| Manager.NonTxtIgnored | examples/blocklist_manager.py:54 | an entry whose name does not end in `.txt` adds neither networks nor count |
| Manager.BlocklistManager.LoadAllBlocklists | examples/blocklist_manager.py:50-60 | the set grows by the networks of every `.txt` entry, in listing order, and the total is the sum of their counts |
| Manager.BlockedBy | examples/blocklist_manager.py:64-71 | defines `is_blocked(ip)[0]`: the text is an address and some stored network contains it |
| Manager.BlocklistManager.IsBlocked | examples/blocklist_manager.py:62-74 | blocked exactly when the text is an address and some stored network contains it; the reason is then the text of such a network, and that text reads back as a stored network containing the address; `""` when the address is not blocked, and `Invalid IP: ` plus the error message when the text is no address |
| Manager.ZeroPrefixBlocksFamily | examples/blocklist_manager.py:67-69 | a stored `/0` network blocks every address of its family |
| Manager.FullPrefixBlocksOnlyItself | examples/blocklist_manager.py:67-69 | a stored `/32` or `/128` network blocks its own address and no other |
| Manager.BlockedCount | examples/blocklist_manager.py:81-87 | the blocked count of a list is at most its length |
| Manager.InvalidNeverCounted | examples/blocklist_manager.py:73-74 | text that is no address is never counted as blocked |
| Manager.ScopedBlocked | examples/blocklist_manager.py:65-69 | an IPv6 address followed by `%` and a scope id is blocked exactly when the address without it is |
| Manager.BlocklistManager.CheckList | examples/blocklist_manager.py:76-94 | the blocked count is the number of listed addresses `is_blocked` reports blocked, and blocked plus allowed is the list's length |
| Manager.BlocklistManager.ExportToFormat | examples/blocklist_manager.py:102-138 | the text written is the export of the sorted networks in the requested format, with `total_count` the size of the set |
| Manager.PlainExportReloads | examples/blocklist_manager.py:107-109 | loading a plain export gives back exactly the exported set, with a count equal to its size |
| Manager.NamesReload | examples/blocklist_manager.py:107-109 | the texts of well-formed networks read back as those networks, one accepted line each |
| Manager.BlocklistManager.GetStatistics | examples/blocklist_manager.py:142-151 | `ipv4` and `ipv6` count the networks of each family, and they add up to `total`, the size of the set |
| Manager.FamiliesPartition | examples/blocklist_manager.py:144-148 | every network is of exactly one family |
| NetSort.NetLess | examples/blocklist_manager.py:98-99 | defines the `<` that `sorted` uses on networks of one family: by network address, then by prefix length |
| NetSort.Family | examples/blocklist_manager.py:98-99 | the networks of one version, the `n.version == 4` or `n.version == 6` filter: exactly the networks of the set that have that version |
| NetSort.LeastExists | examples/blocklist_manager.py:98-99 | a non-empty set of networks of one family has a smallest network |
| NetSort.SortFamily | examples/blocklist_manager.py:98-99 | the sorted networks of one family hold exactly that set, strictly ascending by address, then by prefix length |
| NetSort.SortNetworks | examples/blocklist_manager.py:96-100 | `_sort_networks` lists every stored network once: all IPv4 networks before all IPv6 networks, each family ascending |
| NetSort.OrderedNoDups | examples/blocklist_manager.py:96-100 | a list ordered that way repeats no network |
| NetSort.OrderedUnique | examples/blocklist_manager.py:96-100 | two lists ordered that way with the same networks are equal |
| NetSort.SortNetworksUnique | examples/blocklist_manager.py:96-100 | any list ordered that way holding the set is the one `_sort_networks` returns |
| Export.LineFormatOf | examples/blocklist_manager.py:107-131 | exactly `plain`, `iptables`, `nginx` and `apache` are written one line per network |
| Export.Names | examples/blocklist_manager.py:135 | one text per network, in order, each `str(network)` |
| Export.EntryLines | examples/blocklist_manager.py:114-130 | one entry line per network |
| Export.ExportLines | examples/blocklist_manager.py:107-131 | a line format writes its header lines, then one line per network with the format's prefix and suffix around the network's text, then its footer lines |
| Export.JsonLines | examples/blocklist_manager.py:133-138 | the JSON text has 4 lines for an empty list and otherwise one line per network plus 5; it opens with `{`, closes with `}`, and its next-to-last line gives `total_count` |
| Export.JsonItems | examples/blocklist_manager.py:135-138 | the item lines `json.dump(indent=2)` writes for the list: one per network |
| Export.JsonItemsShape | examples/blocklist_manager.py:135-138 | each network's JSON line is its quoted text, indented four spaces, with a comma after all but the last |
| Export.ExportText | examples/blocklist_manager.py:106-138 | an unknown format writes nothing |
| Export.FormatSizes | examples/blocklist_manager.py:111-131 | iptables writes 3 header lines and no footer; nginx and apache write 3 header lines and 1 footer line; plain writes neither |
| Export.PlainSingleLines | examples/blocklist_manager.py:107-109 | the plain format adds no text that breaks a line |
| Export.IptablesSingleLines | examples/blocklist_manager.py:111-115 | no iptables header line, rule prefix or rule suffix holds a newline |
| Export.NginxSingleLines | examples/blocklist_manager.py:117-123 | no nginx header line, entry text or footer line holds a newline |
| Export.ApacheSingleLines | examples/blocklist_manager.py:125-131 | no Apache header line, entry text or footer line holds a newline |
| Export.NamesNoNewline | examples/blocklist_manager.py:109 | no network's text holds a newline |
| Export.ExportLinesNoNewline | examples/blocklist_manager.py:107-131 | no line of a line-format export holds a newline |
| Export.LineExport | examples/blocklist_manager.py:107-131 | read back line by line, a line-format export gives exactly its header, entry and footer lines |
| Export.PlainExport | examples/blocklist_manager.py:107-109 | read back line by line, a plain export gives exactly the network texts in order |
| Export.JsonExport | examples/blocklist_manager.py:133-138 | read back line by line, the JSON export gives exactly its lines |
| IpNetwork.MaskOf | examples/blocklist_manager.py:42 | `_make_netmask`: a decimal prefix length if the text is one, otherwise, for IPv4 only, a dotted netmask or hostmask; the length is within the width |
| IpNetwork.PrefixFromPrefixString | examples/blocklist_manager.py:42 | a decimal prefix length is accepted only up to the family's width |
| IpNetwork.ParseNetwork | examples/blocklist_manager.py:42 | an accepted network's prefix length is within its family's width |
| IpNetwork.ParseNetworkValid | examples/blocklist_manager.py:42-43 | every accepted network is well-formed, with its host bits cleared |
| IpNetwork.PrefixLengthRule | examples/blocklist_manager.py:42 | `address/n` is the network of length `n` around the address, host bits cleared, when `n` is within the family's width, and is rejected otherwise, never clamped |
| IpNetwork.ParseNetOfRejects | examples/blocklist_manager.py:42 | `a/m` is no network of a family when `a` is no address of it or `m` no mask of it |
| IpNetwork.NetmaskForm | examples/blocklist_manager.py:42 | an IPv4 address with the dotted netmask of a prefix length reads as the network of that length |
| IpNetwork.HostmaskForm | examples/blocklist_manager.py:42 | an IPv4 address with the dotted hostmask of a length strictly between 0 and 32 reads as the network of that length |
| IpNetwork.DottedMaskForm | examples/blocklist_manager.py:42 | an IPv4 address with any accepted dotted mask reads as the network of the length the mask gives |
| IpNetwork.MaskNotPrefixString | examples/blocklist_manager.py:42 | a dotted mask is never read as a decimal prefix length |
| IpNetwork.NetworkRoundTrip | examples/blocklist_manager.py:69 | every well-formed network reads back from its own text |
| IpNetwork.SplitScope | examples/blocklist_manager.py:65 | the address part of an IPv6 text is what precedes its first `%`, and holds no `%`; a text without `%` is its own address part |
| IpNetwork.ParseAddress | examples/blocklist_manager.py:65 | an accepted address is in its family's range; an IPv6 text may carry a `%` scope id, which is split off |
| IpNetwork.AddressRoundTrip | examples/blocklist_manager.py:65 | every address reads back from its own text |
| IpNetwork.ScopedAddress | examples/blocklist_manager.py:65 | an IPv6 address followed by `%` and a non-empty scope id without `%` reads as the same address |
| IpNetwork.BadScopeRejected | examples/blocklist_manager.py:65 | a `%` followed by an empty scope id, or by one holding another `%`, makes the text no address |
| IpNetwork.AddressError | examples/blocklist_manager.py:73-74 | the error message is not empty and quotes the rejected text |
| IpNetwork.FormatAddress | examples/blocklist_manager.py:69 | defines `str()` of an address: the dotted quad for IPv4, the compressed hextets for IPv6 |
| IpNetwork.FormatNet | examples/blocklist_manager.py:69 | a network's text holds a `/` |
| IpNetwork.FormatNetChars | examples/blocklist_manager.py:69 | a network's text holds only hex digits, dots, colons and `/` |
| Ipv4.ParseV4 | examples/blocklist_manager.py:42 | an accepted IPv4 address is below 2^32 |
| Ipv4.FormatV4 | examples/blocklist_manager.py:69 | defines `str()` of an IPv4 address: four decimal octets joined by dots |
| Ipv4.V4RoundTrip | examples/blocklist_manager.py:65 | every IPv4 address reads back from its dotted-quad text |
| Ipv4.V4Canonical | examples/blocklist_manager.py:65 | every accepted IPv4 text is the canonical text of its value: no leading zeros, exactly four octets |
| Ipv4.PrefixFromIpString | examples/blocklist_manager.py:42 | a dotted mask gives a prefix length of at most 32 |
| Ipv4.PrefixFromIpStringSound | examples/blocklist_manager.py:42 | a dotted mask is accepted only as the netmask or the hostmask of the length it gives |
| Ipv4.NetmaskStringAccepted | examples/blocklist_manager.py:42 | the dotted netmask of every length from 0 to 32 is accepted as that length |
| Ipv4.HostmaskStringAccepted | examples/blocklist_manager.py:42 | the dotted hostmask of every length strictly between 0 and 32 is accepted as that length |
| Ipv6.ParseV6 | examples/blocklist_manager.py:42 | an accepted IPv6 address is below 2^128 |
| Ipv6.V6RoundTrip | examples/blocklist_manager.py:65 | every IPv6 address reads back from its text |
| Ipv6.FormatV6 | examples/blocklist_manager.py:69 | defines `str()` of an IPv6 address: eight lower-case hextets without leading zeros, the best zero run written as `::` |
| Ipv6.FormatV6Compressed | examples/blocklist_manager.py:69 | with a run of two or more zero groups, the text writes the first longest such run as `::` |
| Ipv6.BestRunLongest | examples/blocklist_manager.py:69 | the run written as `::` is at least as long as any run of zero groups |
| Ipv6.BestRunFirst | examples/blocklist_manager.py:69 | among runs of equal length, the first one is written as `::` |
| Ipv6.RoundTripCompressed | examples/blocklist_manager.py:65 | eight groups written with a run of zeros as `::` read back as their value |
| Ipv6.RoundTripFull | examples/blocklist_manager.py:65 | eight groups written in full read back as their value |
| IpBase.NetOfValid | examples/blocklist_manager.py:42 | the network built around an address is well-formed |
| IpBase.NetOfContains | examples/blocklist_manager.py:42 | the network built around an address contains it |
| IpBase.MaskIdempotent | examples/blocklist_manager.py:42 | clearing host bits twice is clearing them once |
| IpBase.Contains | examples/blocklist_manager.py:68 | defines `ip in network`: same family, and the address with host bits cleared is the network address |
| IpBase.ContainsRange | examples/blocklist_manager.py:68 | a network contains exactly the addresses of its family from its network address up to its span |
| IpBase.ContainsAllAtZero | examples/blocklist_manager.py:68 | a `/0` network contains every address of its family |
| IpBase.ContainsOnlySelfAtFull | examples/blocklist_manager.py:68 | a full-length network contains only its own address |
| IpBase.MaskPrefix | examples/blocklist_manager.py:42 | a mask value gives a prefix length only if it is that length's netmask or hostmask |
| IpBase.HostmaskNotNetmask | examples/blocklist_manager.py:42 | the hostmask of a length strictly between 0 and the address width is never a netmask, so it is read as a hostmask |
| Text.Strip | examples/blocklist_manager.py:34 | defines `str.strip()`: blanks, as `isspace` knows them, removed from both ends; its properties are the lemmas below |
| Text.StartsWith | examples/blocklist_manager.py:37 | defines `str.startswith(p)`: `p` is a prefix of the text |
| Text.StripIdempotent | examples/blocklist_manager.py:34 | stripping twice is stripping once |
| Text.StripShape | examples/blocklist_manager.py:34-37 | a stripped line neither starts nor ends with a blank, and is empty exactly when the line is all blanks |
| Text.StripChars | build/buildCategorizedLists.py:122 | stripping adds no character |
| Text.Lines | examples/blocklist_manager.py:108-109 | defines the text the `f.write(x + "\n")` loops write: each string followed by a newline |
| Text.SplitLines | examples/blocklist_manager.py:33 | defines reading a file line by line, splitting at `'\n'` only: the pieces between newlines, without a trailing empty piece |
| Text.SplitLinesOfLines | examples/blocklist_manager.py:107-109 | lines written one per line, none holding a newline, read back as the same lines |
| Text.Split | build/buildCategorizedLists.py:120 | `str.split(sep)`: never empty, and no piece holds the separator |
| Text.JoinSplit | build/buildCategorizedLists.py:120 | joining the pieces of a split gives back the text |
| Text.SplitJoin | build/buildCategorizedLists.py:120 | splitting a join of separator-free pieces gives back the pieces |
| Text.Fields | build/buildIPList.py:26 | `str.split()` gives words only: none empty, none holding a blank |
| Text.FieldsOfPair | build/buildIPList.py:26 | `split()` of two words separated by any run of blanks is the two words |
| Text.FieldsOfWord | build/buildIPList.py:26-27 | `split()` of a single word is that word alone |
| Text.CanonicalDecimal | examples/blocklist_manager.py:42 | a decimal string without a leading zero is the text of its value |
| StrOrder.Less | build/buildCategorizedLists.py:143 | defines Python's `str <`: code point by code point, a proper prefix first |
| StrOrder.LessTransitive | build/buildCategorizedLists.py:143 | string order is transitive |
| StrOrder.LessTotal | build/buildCategorizedLists.py:143 | any two different strings are ordered one way or the other |
| StrOrder.InsertAscending | build/buildCategorizedLists.py:143 | inserting into an ascending list keeps it strictly ascending and adds exactly the new string |
| StrOrder.SortedUnique | build/buildCategorizedLists.py:143 | `sorted(set(xs))` is strictly ascending and holds exactly the strings of `xs` |
| StrOrder.AscendingUnique | build/buildCategorizedLists.py:143 | two strictly ascending lists with the same strings are the same list, so the result does not depend on how it is sorted |
| StrOrder.SortedUniqueLength | build/buildCategorizedLists.py:143 | the result is never longer than the input, and is exactly as long when the input repeats no string |
| Feeds.Kept | build/buildCategorizedLists.py:15-20 | defines what a fetch loop keeps: each line's entry, in line order, skipping the lines the rule rejects |
| Feeds.FeedEntries | build/buildCategorizedLists.py:11-27 | defines a fetcher's result: the kept entries, or `[]` when the request raised `RequestException` |
| Feeds.KeepLines | build/buildCategorizedLists.py:15-20 | the fetch loop returns what the feed's rule extracts from each line, in input order |
| Feeds.KeptAppend | build/buildCategorizedLists.py:16-20 | the lines can be read in two parts, and the entries come part by part |
| Feeds.RejectedLineSkipped | build/buildIPList.py:29-34 | a line the rule rejects is skipped, and the loop goes on with the following lines |
| Feeds.KeptMembers | build/buildCategorizedLists.py:16-20 | a string is an entry exactly when the rule extracts it from some line |
| Feeds.KeptLength | build/buildCategorizedLists.py:16-20 | a feed gives at most one entry per line |
| Feeds.KeptSubsequence | build/buildCategorizedLists.py:65-71 | a rule that keeps only what a looser rule keeps, unchanged, yields a subsequence of the looser rule's result |
| Feeds.KeptAll | build/buildCategorizedLists.py:16-20 | a property of every entry the rule extracts holds for every entry of the feed |
| Feeds.PlainEntry | build/buildCategorizedLists.py:16-20 | the entry of a line is its stripped text, non-empty, not `#`-prefixed; there is none exactly for blank and `#` lines |
| Feeds.PlainEntries | build/buildCategorizedLists.py:16-20 | the Feodo, blocklist.de and Emerging Threats entries are exactly the stripped lines that are non-empty and not `#` comments |
| Feeds.FetchFeodoTracker | build/buildCategorizedLists.py:11-27 | the Feodo Tracker entries; nothing when the request failed |
| Feeds.FetchBlocklistDe | build/buildCategorizedLists.py:36-52 | the blocklist.de entries; nothing when the request failed |
| Feeds.FetchEmergingThreats | build/buildCategorizedLists.py:86-102 | the Emerging Threats entries; nothing when the request failed |
| Feeds.CinsEntry | build/buildCategorizedLists.py:65-71 | a CINS entry is a comment-filtered line that also holds `.` and does not start with `http` |
| Feeds.FetchCinsscoreMalware | build/buildCategorizedLists.py:60-78 | the CINS Score entries; nothing when the request failed |
| Feeds.CinsWithinPlain | build/buildCategorizedLists.py:65-71 | the CINS result is a subsequence of what comment filtering alone keeps |
| Feeds.BeforeMark | build/buildCategorizedLists.py:115-124 | an entry is non-empty and holds no comment mark |
| Feeds.SplitHead | build/buildCategorizedLists.py:120-122 | the first piece of a split is the text before the first separator, or the whole text |
| Feeds.BeforeMarkKeeps | build/buildCategorizedLists.py:120-124 | every stripped line that is neither empty nor mark-prefixed gives an entry, so the non-empty test after the split never fails |
| Feeds.BeforeMarkWithoutMark | build/buildCategorizedLists.py:120-124 | a line without the mark is kept as its stripped text |
| Feeds.SpamhausEntry | build/buildCategorizedLists.py:115-124 | a Spamhaus entry is non-empty and holds no `;` |
| Feeds.FetchSpamhausDrop | build/buildCategorizedLists.py:110-131 | the Spamhaus DROP entries; nothing when the request failed |
| Feeds.SpamhausNoComment | build/buildCategorizedLists.py:115-124 | no Spamhaus entry is empty or holds a `;` |
| Feeds.AlienVaultEntry | build/buildIPList.py:75-87 | an AlienVault entry is non-empty and holds no `#` |
| Feeds.AlienVaultKeepsPlain | build/buildIPList.py:79-87 | AlienVault keeps an entry for exactly the lines that are neither blank nor `#` comments |
| Feeds.AlienVaultNoComment | build/buildIPList.py:83-87 | no AlienVault entry is empty or holds a `#` |
| Feeds.FetchAlienVaultReputation | build/buildIPList.py:68-106 | the AlienVault entries, and the feed file: its two header lines, then one entry per line; nothing when the request failed |
| Feeds.DropUnderscores | build/buildIPList.py:30 | the digits of a count without its underscores are all digits, and a plain digit string is left as it is |
| Feeds.ParseInt | build/buildIPList.py:30 | `int()` accepts no empty text, and a negative value only after a `-` |
| Feeds.PlainDigits | build/buildIPList.py:30 | a non-empty string of digits is accepted by `int()` as it is |
| Feeds.ParseIntUnsigned | build/buildIPList.py:30 | `int()` reads an unsigned decimal string as its value |
| Feeds.ParseIntPlus | build/buildIPList.py:30 | `int()` reads a `+`-signed decimal string as its value |
| Feeds.ParseIntMinus | build/buildIPList.py:30 | `int()` reads a `-`-signed decimal string as the negated value |
| Feeds.ParseIntString | build/buildIPList.py:30 | `int(str(n)) == n` for every integer on interpreters without the 4300-digit limit (so for every integer of at most 4300 digits on any), and a leading `+` is accepted too |
| Feeds.IpsumEntry | build/buildIPList.py:18-32 | an IPsum entry is a single non-empty word that is not a `#` comment |
| Feeds.HitsEntry | build/buildIPList.py:26-32 | a line's fields give an entry exactly when there are at least two of them and the second is read by `int()` as a count of at least 2; the entry is the first field |
| Feeds.FirstFieldStart | build/buildIPList.py:26-28 | the first field of a stripped, non-comment line is a word that does not start with `#` |
| Feeds.ParseIntWord | build/buildIPList.py:26-30 | text that `int()` accepts holds no blank, so it is a whole field of `split()` |
| Feeds.IpsumLine | build/buildIPList.py:25-32 | an `IP HITS` line, with any run of blanks between the fields (the feed uses a tab) and any count text `int()` accepts, is kept as its address exactly when the count is at least 2 |
| Feeds.IpsumSingleField | build/buildIPList.py:26-27 | a line with a single field is dropped |
| Feeds.IpsumBadCount | build/buildIPList.py:29-34 | a line whose count is not an integer is dropped, whatever blanks separate the fields, and the loop carries on with the rest |
| Feeds.IpsumWords | build/buildIPList.py:18-32 | every IPsum entry is a non-empty word that is not a comment |
| Feeds.FetchIpsum | build/buildIPList.py:17-34 | the IPsum entries; nothing when the request failed |
| Feeds.FetchAndFilterIpsum | build/buildIPList.py:11-53 | the IPsum entries, and the feed file: its two header lines, then one entry per line; nothing when the request failed |
| Feeds.WriteLines | build/buildIPList.py:42-48 | the text written is the header lines, then each entry, each followed by a newline |
| Feeds.FeedHeader | build/buildIPList.py:44-45 | a feed file has two header lines |
| Feeds.FeedEntriesNonEmpty | build/buildCategorizedLists.py:17-20 | every fetcher emits only non-empty strings, and nothing when its request failed |
| BuildLists.BlocklistHeader | build/buildCategorizedLists.py:146-152 | the header has eight lines, and its sixth gives the entry count |
| BuildLists.WriteBlocklist | build/buildCategorizedLists.py:133-158 | returns `sorted(set(ips))`, which is strictly ascending, holds exactly the input strings and is no longer than the input; the file is the header with that count, then those entries |
| BuildLists.BlocklistHeaderLines | build/buildCategorizedLists.py:146-152 | with a single-line title, timestamp, description and sources, no header line breaks |
| BuildLists.ReadsBack | build/buildCategorizedLists.py:145-155 | header lines and entries without newlines read back as written |
| BuildLists.SortedUniqueLines | build/buildCategorizedLists.py:143 | deduplicating introduces no newline |
| BuildLists.BlocklistReadsBack | build/buildCategorizedLists.py:151-158 | read back, the file holds the eight header lines and then exactly the returned entries, and `Total Unique Entries` equals the number of entry lines |
| BuildLists.BuildBotnetList | build/buildCategorizedLists.py:160-180 | the input list is the Feodo Tracker entries, then the blocklist.de `bots` entries; `botnet.txt` is written from it |
| BuildLists.BuildMalwareList | build/buildCategorizedLists.py:182-205 | the input list is the CINS Score, Emerging Threats and Spamhaus DROP entries, in that order; `malware.txt` is written from it |
| BuildLists.BuildAbuseList | build/buildCategorizedLists.py:207-227 | the input list is the blocklist.de `ssh`, `mail`, `apache` and `bruteforce` entries, in that order; `abuse.txt` is written from it |
| BuildLists.MasterHeader | build/buildIPList.py:132-135 | the primary list has four header lines |
| BuildLists.ElemsConcat | build/buildIPList.py:121 | the strings of `a + b` are those of `a` together with those of `b` |
| BuildLists.CreateMasterList | build/buildIPList.py:115-147 | the primary list is strictly ascending and holds exactly the union of both inputs; the duplicates removed, `len(a) + len(b) - len(sorted)`, are never negative and are zero exactly when no string occurs twice across the inputs |

## Left out

- The text forms of addresses and networks follow CPython 3.9.5 to 3.12's `ipaddress`; CPython 3.9.0 to 3.9.4 also accepted IPv4 octets with leading zeros, which Ipv4.ParseOctet rejects. Ipv6.FormatV6 writes an IPv4-mapped address as hextets (`::ffff:102:304`); CPython 3.13 and later write it as `::ffff:1.2.3.4`.
- HTTP fetching, timeouts and `raise_for_status` are not modelled. A response is given as its lines, already split, or as `None` when the request failed.
- Creating directories, opening and writing files, and every `print` are not modelled. A written file is the text written to it.
- Command-line parsing and the `main` functions of all three scripts are glue and are not modelled.
- `datetime.utcnow()` is a clock. The header timestamp is a parameter.
- The `except Exception` handlers around file writing in buildIPList.py cover I/O failures, which the model does not have.
- Manager.BlocklistManager.LoadAllBlocklists: the order of `Path.glob` is a parameter. A listed entry named `x.txt` that is not a file is treated as missing (count 0). Python would fail on opening a directory of that name.
- Manager.BlocklistManager.LoadBlocklist: a file that is not valid UTF-8 raises in Python. The model has no encodings: a file is its lines.
- Manager.BlocklistManager.IsBlocked: the set has no iteration order. The reason is the text of *some* stored network containing the address, not necessarily the one Python's iteration meets first.
- Manager.BlocklistManager.CheckList: models the two totals. The printed per-address table is left out.
- IpNetwork.AddressError: Python quotes the rejected text with `repr()`. The model puts it between single quotes, escaping nothing.
- IpNetwork.ParseNetwork: IPv6 scope ids (`fe80::1%eth0`) are rejected. Python 3.9 and later accepts them. A stored network never carries a scope id.
- IpNetwork.PrefixLengthRule: stated for address texts without a `%` scope id, because networks with scope ids are outside the model.
- Feeds.ParseInt: `int()` also accepts non-ASCII Unicode decimal digits. The model accepts ASCII digits only, with optional sign and underscores between digits. The model also has no length limit: CPython 3.11 and later, 3.10.7 and later and 3.9.14 and later raise `ValueError` for a string of more than 4300 decimal digits, so such a hit count is dropped by Python and kept by the model.
- Feeds.ParseIntString: holds for every integer on interpreters without the digit limit; with the limit, `str(n)` and `int()` raise `ValueError` beyond 4300 digits, so it holds only for integers of at most 4300 digits.
- Text.SplitLines: splits at `'\n'` only. Python's text mode also ends a line at `'\r'` and at `"\r\n"`. A `"\r\n"` ending gives the same stripped lines, but a file whose lines end in a lone `'\r'` is read as one line by the model.
- Feeds.FetchBlocklistDe: the category only names the URL that was fetched, so it does not appear in the model.
- BuildLists.WriteBlocklist: the output file name and directory are not modelled, only the file's text.
- BuildLists.CreateMasterList: the three printed totals are modelled as the returned `duplicates`, with the lists' lengths. The file path is not modelled.
