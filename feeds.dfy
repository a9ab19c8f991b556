/**
 * The per-line loops of the threat-feed fetchers of both build scripts
 * (`fetch_feodo_tracker`, `fetch_blocklist_de`, `fetch_cinsscore_malware`,
 * `fetch_emerging_threats`, `fetch_spamhaus_drop`,
 * `fetch_and_filter_ipsum`, `fetch_alienvault_reputation`).
 *
 * A feed's HTTP response is given as its lines, or `None` when the request
 * failed, in which case every fetcher returns the empty list. Each fetcher
 * keeps, in input order, what its line rule extracts from each line.
 */
module Feeds {
  import opened Wrappers
  import opened Text
  import opened Seqs

  /** What a fetch loop extracts from each line, in order: the lines its rule keeps. */
  function Kept(lines: seq<string>, entry: string -> Option<string>): seq<string> {
    if lines == [] then []
    else
      var init := Kept(lines[..|lines| - 1], entry);
      match entry(lines[|lines| - 1])
      case Some(x) => init + [x]
      case None => init
  }

  /**
   * The loop every fetcher runs: `ips = []`, then for each line append what
   * the rule extracts, and skip the line when it extracts nothing.
   */
  method KeepLines(lines: seq<string>, entry: string -> Option<string>) returns (ips: seq<string>)
    ensures ips == Kept(lines, entry)
  {
    ips := [];
    for i := 0 to |lines|
      invariant ips == Kept(lines[..i], entry)
    {
      assert lines[..i + 1][..i] == lines[..i];
      match entry(lines[i]) {
        case Some(x) =>
          ips := ips + [x];
        case None =>
      }
    }
    assert lines[..|lines|] == lines;
  }

  /** A fetcher's result: nothing when the request failed, else the kept lines. */
  function FeedEntries(response: Option<seq<string>>, entry: string -> Option<string>): seq<string> {
    match response
    case None => []
    case Some(lines) => Kept(lines, entry)
  }

  /** Reading the lines in two parts keeps the same entries, part by part. */
  lemma {:induction false} KeptAppend(a: seq<string>, b: seq<string>, entry: string -> Option<string>)
    ensures Kept(a + b, entry) == Kept(a, entry) + Kept(b, entry)
  {
    if b == [] {
      assert a + b == a;
    } else {
      var b0 := b[..|b| - 1];
      assert (a + b)[..|a + b| - 1] == a + b0;
      assert (a + b)[|a + b| - 1] == b[|b| - 1];
      KeptAppend(a, b0, entry);
    }
  }

  /** A line the rule rejects changes nothing, wherever it occurs: the loop goes on past it. */
  lemma RejectedLineSkipped(before: seq<string>, line: string, after: seq<string>, entry: string -> Option<string>)
    requires entry(line) == None
    ensures Kept(before + [line] + after, entry) == Kept(before, entry) + Kept(after, entry)
  {
    KeptAppend(before + [line], after, entry);
    assert (before + [line])[..|before|] == before;
  }

  /** The kept entries are exactly what the rule extracts from some line. */
  lemma {:induction false} KeptMembers(lines: seq<string>, entry: string -> Option<string>, x: string)
    ensures x in Kept(lines, entry) <==> exists i :: 0 <= i < |lines| && entry(lines[i]) == Some(x)
  {
    if lines != [] {
      var init := lines[..|lines| - 1];
      KeptMembers(init, entry, x);
      if exists i :: 0 <= i < |lines| && entry(lines[i]) == Some(x) {
        var i :| 0 <= i < |lines| && entry(lines[i]) == Some(x);
        if i < |init| {
          assert init[i] == lines[i];
        }
      }
      if exists i :: 0 <= i < |init| && entry(init[i]) == Some(x) {
        var i :| 0 <= i < |init| && entry(init[i]) == Some(x);
        assert lines[i] == init[i];
      }
    }
  }

  /** At most one entry per line. */
  lemma {:induction false} KeptLength(lines: seq<string>, entry: string -> Option<string>)
    ensures |Kept(lines, entry)| <= |lines|
  {
    if lines != [] {
      KeptLength(lines[..|lines| - 1], entry);
    }
  }

  /**
   * A stricter rule, one that keeps only what the looser rule keeps and
   * keeps it unchanged, yields a subsequence of the looser rule's result.
   */
  lemma {:induction false} KeptSubsequence(lines: seq<string>, strict: string -> Option<string>, loose: string -> Option<string>)
    requires forall l :: strict(l).Some? ==> strict(l) == loose(l)
    ensures Subsequence(Kept(lines, strict), Kept(lines, loose))
  {
    if lines != [] {
      var init := lines[..|lines| - 1];
      var last := lines[|lines| - 1];
      var xs, ys := Kept(init, strict), Kept(init, loose);
      KeptSubsequence(init, strict, loose);
      match loose(last)
      case None =>
        assert strict(last) == None;
      case Some(y) =>
        assert (ys + [y])[..|ys|] == ys;
        if strict(last).Some? {
          assert (xs + [y])[..|xs|] == xs;
        } else {
          SubsequenceExtend(xs, ys, y);
        }
    }
  }

  lemma SubsequenceExtend(xs: seq<string>, ys: seq<string>, y: string)
    requires Subsequence(xs, ys)
    ensures Subsequence(xs, ys + [y])
  {
    assert (ys + [y])[..|ys|] == ys;
  }

  /** The entries of a list of lines all satisfy `ok` when every entry the rule extracts does. */
  lemma KeptAll(lines: seq<string>, entry: string -> Option<string>, ok: string -> bool)
    requires forall l :: entry(l).Some? ==> ok(entry(l).value)
    ensures forall k :: 0 <= k < |Kept(lines, entry)| ==> ok(Kept(lines, entry)[k])
  {
    var r := Kept(lines, entry);
    forall k | 0 <= k < |r| ensures ok(r[k]) {
      KeptMembers(lines, entry, r[k]);
    }
  }

  // ---------------------------------------------------------------------
  // Comment filtering: Feodo Tracker, blocklist.de, Emerging Threats
  // ---------------------------------------------------------------------

  /**
   * The rule of the Feodo Tracker, blocklist.de and Emerging Threats loops:
   * the stripped line, unless it is empty or a `#` comment.
   */
  function PlainEntry(line: string): (r: Option<string>)
    ensures r.Some? ==> r.value != "" && !StartsWith(r.value, "#") && Strip(r.value) == r.value
    ensures r.None? <==> Strip(line) == "" || StartsWith(Strip(line), "#")
  {
    var t := Strip(line);
    if t == "" || StartsWith(t, "#") then None
    else
      StripIdempotent(line);
      Some(t)
  }

  /** `fetch_feodo_tracker()`. */
  method FetchFeodoTracker(response: Option<seq<string>>) returns (ips: seq<string>)
    ensures ips == FeedEntries(response, PlainEntry)
  {
    ips := [];
    if response.Some? {
      ips := KeepLines(response.value, PlainEntry);
    }
  }

  /** `fetch_blocklist_de(category)`; the category only names the list fetched. */
  method FetchBlocklistDe(response: Option<seq<string>>) returns (ips: seq<string>)
    ensures ips == FeedEntries(response, PlainEntry)
  {
    ips := [];
    if response.Some? {
      ips := KeepLines(response.value, PlainEntry);
    }
  }

  /** `fetch_emerging_threats()`. */
  method FetchEmergingThreats(response: Option<seq<string>>) returns (ips: seq<string>)
    ensures ips == FeedEntries(response, PlainEntry)
  {
    ips := [];
    if response.Some? {
      ips := KeepLines(response.value, PlainEntry);
    }
  }

  /**
   * The comment-filtering feeds return exactly the stripped lines that are
   * neither empty nor `#` comments: each entry is such a line, and each
   * such line gives an entry.
   */
  lemma PlainEntries(lines: seq<string>, x: string)
    ensures x in Kept(lines, PlainEntry) <==>
      exists i :: 0 <= i < |lines| && Strip(lines[i]) == x && x != "" && !StartsWith(x, "#")
  {
    KeptMembers(lines, PlainEntry, x);
  }

  // ---------------------------------------------------------------------
  // CINS Score
  // ---------------------------------------------------------------------

  /** The CINS Score rule: a kept line must also hold a `.` and not start with `http`. */
  function CinsEntry(line: string): (r: Option<string>)
    ensures r.Some? ==> r == PlainEntry(line) && '.' in r.value && !StartsWith(r.value, "http")
  {
    match PlainEntry(line)
    case Some(t) => if '.' in t && !StartsWith(t, "http") then Some(t) else None
    case None => None
  }

  /** `fetch_cinsscore_malware()`. */
  method FetchCinsscoreMalware(response: Option<seq<string>>) returns (ips: seq<string>)
    ensures ips == FeedEntries(response, CinsEntry)
  {
    ips := [];
    if response.Some? {
      ips := KeepLines(response.value, CinsEntry);
    }
  }

  /** The CINS result is a subsequence of what plain comment filtering keeps. */
  lemma CinsWithinPlain(lines: seq<string>)
    ensures Subsequence(Kept(lines, CinsEntry), Kept(lines, PlainEntry))
  {
    KeptSubsequence(lines, CinsEntry, PlainEntry);
  }

  // ---------------------------------------------------------------------
  // Text before a comment mark: Spamhaus DROP (`;`), AlienVault (`#`)
  // ---------------------------------------------------------------------

  /**
   * The rule of the Spamhaus DROP loop (with `mark` `;`) and of the
   * AlienVault loop (with `mark` `#`): skip an empty or `mark`-prefixed
   * stripped line, otherwise keep the stripped text before the first
   * `mark` when it is not empty.
   */
  function BeforeMark(line: string, mark: char): (r: Option<string>)
    ensures r.Some? ==> r.value != "" && mark !in r.value
  {
    var t := Strip(line);
    if t == "" || StartsWith(t, [mark]) then None
    else
      var piece := Split(t, mark)[0];
      var kept := Strip(piece);
      StripChars(piece, mark);
      if kept != "" then Some(kept) else None
  }

  /** The first piece of a split is the text before the first separator, or all of it. */
  lemma SplitHead(s: string, sep: char)
    ensures sep in s ==> Split(s, sep)[0] == s[..IndexOf(s, sep)]
    ensures sep !in s ==> Split(s, sep)[0] == s
  {
  }

  /**
   * The non-empty test after the split never fails: a stripped line that
   * does not start with the mark has a first piece starting with a
   * non-blank, so every line that is neither empty nor mark-prefixed
   * gives an entry.
   */
  lemma BeforeMarkKeeps(line: string, mark: char)
    ensures BeforeMark(line, mark).Some? <==> !(Strip(line) == "" || StartsWith(Strip(line), [mark]))
  {
    var t := Strip(line);
    if !(t == "" || StartsWith(t, [mark])) {
      StripShape(line);
      assert t[0] != mark by {
        assert t[..1] == [t[0]];
      }
      var piece := Split(t, mark)[0];
      SplitHead(t, mark);
      assert piece != "" && piece[0] == t[0] by {
        if mark in t {
          assert IndexOf(t, mark) != 0;
        }
      }
      StripShape(piece);
      assert !IsSpace(piece[0]);
    }
  }

  /** A line without the mark is kept whole: the stripped line, as in comment filtering. */
  lemma BeforeMarkWithoutMark(line: string, mark: char)
    requires mark !in line
    requires !(Strip(line) == "" || StartsWith(Strip(line), [mark]))
    ensures BeforeMark(line, mark) == Some(Strip(line))
  {
    var t := Strip(line);
    StripChars(line, mark);
    SplitHead(t, mark);
    StripIdempotent(line);
  }

  function SpamhausEntry(line: string): (r: Option<string>)
    ensures r.Some? ==> r.value != "" && ';' !in r.value
  {
    BeforeMark(line, ';')
  }

  function AlienVaultEntry(line: string): (r: Option<string>)
    ensures r.Some? ==> r.value != "" && '#' !in r.value
  {
    BeforeMark(line, '#')
  }

  /** `fetch_spamhaus_drop()`. */
  method FetchSpamhausDrop(response: Option<seq<string>>) returns (ips: seq<string>)
    ensures ips == FeedEntries(response, SpamhausEntry)
  {
    ips := [];
    if response.Some? {
      ips := KeepLines(response.value, SpamhausEntry);
    }
  }

  /** No Spamhaus entry holds a `;`, and none is empty. */
  lemma SpamhausNoComment(lines: seq<string>)
    ensures forall k :: 0 <= k < |Kept(lines, SpamhausEntry)| ==>
      Kept(lines, SpamhausEntry)[k] != "" && ';' !in Kept(lines, SpamhausEntry)[k]
  {
    KeptAll(lines, SpamhausEntry, x => x != "" && ';' !in x);
  }

  /** AlienVault keeps an entry for exactly the lines comment filtering keeps. */
  lemma AlienVaultKeepsPlain(line: string)
    ensures AlienVaultEntry(line).Some? <==> PlainEntry(line).Some?
  {
    BeforeMarkKeeps(line, '#');
  }

  /** No AlienVault entry holds a `#`, and none is empty. */
  lemma AlienVaultNoComment(lines: seq<string>)
    ensures forall k :: 0 <= k < |Kept(lines, AlienVaultEntry)| ==>
      Kept(lines, AlienVaultEntry)[k] != "" && '#' !in Kept(lines, AlienVaultEntry)[k]
  {
    KeptAll(lines, AlienVaultEntry, x => x != "" && '#' !in x);
  }

  // ---------------------------------------------------------------------
  // IPsum
  // ---------------------------------------------------------------------

  /**
   * The text `int()` accepts after an optional sign: ASCII digits, with
   * single underscores allowed between two digits.
   */
  predicate DigitGroups(s: string) {
    && s != ""
    && DigitsOrUnderscores(s)
    && forall i :: 0 <= i < |s| && s[i] == '_' ==> 0 < i < |s| - 1 && IsDigit(s[i - 1]) && IsDigit(s[i + 1])
  }

  predicate DigitsOrUnderscores(s: string) {
    forall i :: 0 <= i < |s| ==> IsDigit(s[i]) || s[i] == '_'
  }

  /** The digits of a digit-group string without its underscores. */
  function DropUnderscores(s: string): (r: string)
    requires DigitsOrUnderscores(s)
    ensures AllDigits(r)
    ensures AllDigits(s) ==> r == s
  {
    if s == "" then ""
    else
      var r := DropUnderscores(s[1..]);
      if s[0] == '_' then r else [s[0]] + r
  }

  /**
   * Python's `int(w)` on a field of `split()` (a word with no blanks): an
   * optional `+` or `-`, then digit groups; `None` where `int()` raises
   * `ValueError`.
   */
  function ParseInt(w: string): (r: Option<int>)
    ensures r.Some? ==> w != "" && (r.value < 0 ==> w[0] == '-')
  {
    if w != "" && (w[0] == '+' || w[0] == '-') then
      if DigitGroups(w[1..]) then
        var v: int := DecimalValue(DropUnderscores(w[1..]));
        var n := if w[0] == '-' then -v else v;
        Some(n)
      else None
    else if DigitGroups(w) then Some(DecimalValue(DropUnderscores(w)))
    else None
  }

  /** Python's `str(n)` of an integer. */
  function IntString(n: int): (s: string)
    ensures s != "" && NoSpace(s)
  {
    var d := NatToString(if n < 0 then -n else n);
    assert NoSpace(d) by {
      forall j | 0 <= j < |d| ensures !IsSpace(d[j]) {
        assert IsDigit(d[j]);
      }
    }
    if n < 0 then "-" + d else d
  }

  /** A non-empty string of digits is a digit-group string without underscores. */
  lemma PlainDigits(d: string)
    requires d != "" && AllDigits(d)
    ensures DigitGroups(d) && DropUnderscores(d) == d
  {
  }

  /** `int()` reads back a decimal string without a sign. */
  lemma ParseIntUnsigned(d: string)
    requires d != "" && AllDigits(d)
    ensures ParseInt(d) == Some(DecimalValue(d) as int)
  {
    PlainDigits(d);
    assert IsDigit(d[0]);
  }

  /** `int()` reads back a decimal string after a `+`. */
  lemma ParseIntPlus(d: string)
    requires d != "" && AllDigits(d)
    ensures ParseInt("+" + d) == Some(DecimalValue(d) as int)
  {
    PlainDigits(d);
    hide DecimalValue, DropUnderscores, DigitGroups;
    assert ("+" + d)[1..] == d;
  }

  /** `int()` reads back a decimal string after a `-` as its negation. */
  lemma ParseIntMinus(d: string)
    requires d != "" && AllDigits(d)
    ensures ParseInt("-" + d) == Some(-(DecimalValue(d) as int))
  {
    PlainDigits(d);
    hide DecimalValue, DropUnderscores, DigitGroups;
    var w := "-" + d;
    assert w[0] == '-' && w[1..] == d;
    assert DigitGroups(w[1..]);
  }

  /** `int()` reads back what `str()` writes, and accepts a leading `+`. */
  lemma ParseIntString(n: int)
    ensures ParseInt(IntString(n)) == Some(n)
    ensures n >= 0 ==> ParseInt("+" + IntString(n)) == Some(n)
  {
    var d := NatToString(if n < 0 then -n else n);
    if n < 0 {
      ParseIntMinus(d);
    } else {
      ParseIntUnsigned(d);
      ParseIntPlus(d);
    }
  }

  /**
   * The IPsum rule: on a stripped line that is neither empty nor a `#`
   * comment and has at least two fields, keep the first field when the
   * second is an integer of at least 2.
   */
  function IpsumEntry(line: string): (r: Option<string>)
    ensures r.Some? ==> r.value != "" && NoSpace(r.value) && r.value[0] != '#'
  {
    match PlainEntry(line)
    case None => None
    case Some(t) =>
      var r := HitsEntry(Fields(t));
      if r.Some? then
        FirstFieldStart(t);
        r
      else r
  }

  /** The first of the fields when there are at least two and the second is a count of at least 2. */
  function HitsEntry(parts: seq<string>): (r: Option<string>)
    ensures r.Some? ==> |parts| >= 2 && r.value == parts[0]
    ensures r.Some? <==> |parts| >= 2 && ParseInt(parts[1]).Some? && ParseInt(parts[1]).value >= 2
  {
    if |parts| >= 2 then
      match ParseInt(parts[1])
      case Some(hits) => if hits >= 2 then Some(parts[0]) else None
      case None => None
    else None
  }

  /** The first field of a stripped, non-comment line is a word that is no comment. */
  lemma FirstFieldStart(t: string)
    requires t != "" && Strip(t) == t && !StartsWith(t, "#") && |Fields(t)| >= 1
    ensures Fields(t)[0] != "" && NoSpace(Fields(t)[0]) && Fields(t)[0][0] != '#'
  {
    StripShape(t);
    assert StripLeft(t) == t;
    assert Fields(t)[0] == FirstWord(t);
    assert t[..1] == [t[0]];
  }

  /** `fetch_and_filter_ipsum()`'s loop. */
  method FetchIpsum(response: Option<seq<string>>) returns (ips: seq<string>)
    ensures ips == FeedEntries(response, IpsumEntry)
  {
    ips := [];
    if response.Some? {
      ips := KeepLines(response.value, IpsumEntry);
    }
  }

  /** Text that `int()` accepts is a single word: it holds no blank. */
  lemma ParseIntWord(w: string)
    requires ParseInt(w).Some?
    ensures w != "" && NoSpace(w)
  {
    var d := if w[0] == '+' || w[0] == '-' then w[1..] else w;
    assert DigitsOrUnderscores(d);
    forall j | 0 <= j < |w| ensures !IsSpace(w[j]) {
      if w[0] == '+' || w[0] == '-' {
        if j > 0 {
          assert w[j] == d[j - 1];
        }
      } else {
        assert w[j] == d[j];
      }
    }
  }

  /**
   * An `IP HITS` line, its two fields separated by any run of blanks (the
   * feed uses a tab), is kept as its address exactly when the count, read
   * by `int()`, is at least 2.
   */
  lemma IpsumLine(ip: string, gap: string, count: string, hits: int)
    requires ip != "" && NoSpace(ip) && ip[0] != '#'
    requires gap != "" && AllSpace(gap)
    requires ParseInt(count) == Some(hits)
    ensures IpsumEntry(ip + gap + count) == if hits >= 2 then Some(ip) else None
  {
    ParseIntWord(count);
    hide ParseInt, AllSpace, NoSpace;
    var line := ip + gap + count;
    assert line[0] == ip[0] && line[|line| - 1] == count[|count| - 1];
    StripUnchanged(line);
    assert !StartsWith(line, "#") by {
      assert line[..1] == [ip[0]];
    }
    FieldsOfPair(ip, gap, count);
  }

  /** A line with a single field is dropped. */
  lemma IpsumSingleField(w: string)
    requires w != "" && NoSpace(w)
    ensures IpsumEntry(w) == None
  {
    StripUnchanged(w);
    FieldsOfWord(w);
  }

  /** A count that is no integer drops the line, and the loop carries on with the rest. */
  lemma IpsumBadCount(before: seq<string>, ip: string, gap: string, count: string, after: seq<string>)
    requires ip != "" && NoSpace(ip) && count != "" && NoSpace(count)
    requires gap != "" && AllSpace(gap)
    requires ParseInt(count) == None
    ensures Kept(before + [ip + gap + count] + after, IpsumEntry) == Kept(before, IpsumEntry) + Kept(after, IpsumEntry)
  {
    var line := ip + gap + count;
    assert line[0] == ip[0] && line[|line| - 1] == count[|count| - 1];
    StripUnchanged(line);
    FieldsOfPair(ip, gap, count);
    RejectedLineSkipped(before, line, after, IpsumEntry);
  }

  /** Every IPsum entry is a single non-empty word that is no comment. */
  lemma IpsumWords(lines: seq<string>)
    ensures forall k :: 0 <= k < |Kept(lines, IpsumEntry)| ==>
      Kept(lines, IpsumEntry)[k] != "" && NoSpace(Kept(lines, IpsumEntry)[k]) && Kept(lines, IpsumEntry)[k][0] != '#'
  {
    KeptAll(lines, IpsumEntry, x => x != "" && NoSpace(x) && x[0] != '#');
  }

  // ---------------------------------------------------------------------
  // Feed files written by buildIPList.py, and every feed's entries
  // ---------------------------------------------------------------------

  /** The loop `for ip in ips: f.write(ip + '\n')` after a header. */
  method WriteLines(header: seq<string>, entries: seq<string>) returns (text: string)
    ensures text == Lines(header + entries)
  {
    text := Lines(header);
    assert header + entries[..0] == header;
    for i := 0 to |entries|
      invariant text == Lines(header + entries[..i])
    {
      LinesAppend(header + entries[..i], [entries[i]]);
      assert header + entries[..i + 1] == header + entries[..i] + [entries[i]];
      text := text + (entries[i] + "\n");
    }
    assert entries[..|entries|] == entries;
  }

  /** The two header lines of `IPsum_latest.txt` and `AlienVault_latest.txt`. */
  function FeedHeader(url: string, timestamp: string): (r: seq<string>)
    ensures |r| == 2
  {
    ["# Source: " + url, "# Last Updated: " + timestamp + " UTC"]
  }

  const IpsumUrl := "https://raw.githubusercontent.com/stamparm/ipsum/refs/heads/master/ipsum.txt"
  const AlienVaultUrl := "https://reputation.alienvault.com/reputation.generic"

  /**
   * `fetch_and_filter_ipsum()`: the kept addresses, and the text of
   * `IPsum_latest.txt` (`None` when the request failed and nothing is
   * written).
   */
  method FetchAndFilterIpsum(response: Option<seq<string>>, timestamp: string)
    returns (ips: seq<string>, file: Option<string>)
    ensures ips == FeedEntries(response, IpsumEntry)
    ensures response.None? ==> file.None?
    ensures response.Some? ==> file == Some(Lines(FeedHeader(IpsumUrl, timestamp) + ips))
  {
    ips := FetchIpsum(response);
    file := None;
    if response.Some? {
      var text := WriteLines(FeedHeader(IpsumUrl, timestamp), ips);
      file := Some(text);
    }
  }

  /** `fetch_alienvault_reputation()`: the kept addresses and the text of `AlienVault_latest.txt`. */
  method FetchAlienVaultReputation(response: Option<seq<string>>, timestamp: string)
    returns (ips: seq<string>, file: Option<string>)
    ensures ips == FeedEntries(response, AlienVaultEntry)
    ensures response.None? ==> file.None?
    ensures response.Some? ==> file == Some(Lines(FeedHeader(AlienVaultUrl, timestamp) + ips))
  {
    ips := [];
    file := None;
    if response.Some? {
      ips := KeepLines(response.value, AlienVaultEntry);
      var text := WriteLines(FeedHeader(AlienVaultUrl, timestamp), ips);
      file := Some(text);
    }
  }

  /** Every fetcher emits only non-empty strings, and nothing at all when its request failed. */
  lemma FeedEntriesNonEmpty(response: Option<seq<string>>, entry: string -> Option<string>)
    requires entry == PlainEntry || entry == CinsEntry || entry == SpamhausEntry
      || entry == IpsumEntry || entry == AlienVaultEntry
    ensures response.None? ==> FeedEntries(response, entry) == []
    ensures forall k :: 0 <= k < |FeedEntries(response, entry)| ==> FeedEntries(response, entry)[k] != ""
  {
    if response.Some? {
      KeptAll(response.value, entry, x => x != "");
    }
  }
}
