/**
 * The texts `BlocklistManager.export_to_format` writes for the sorted
 * networks: one network per line, an iptables script, an nginx `geo`
 * block, an Apache `RequireAll` block, or the `json.dump(..., indent=2)`
 * of the network texts and their count.
 */
module Export {
  import opened Wrappers
  import opened Text
  import opened IpBase
  import opened IpNetwork

  /** A format written line by line: fixed lines, one line per network between `prefix` and `suffix`, fixed lines. */
  datatype LineFormat = LineFormat(header: seq<string>, prefix: string, suffix: string, footer: seq<string>)

  /** `f.write` calls of the `plain` branch. */
  const Plain := LineFormat([], "", "", [])
  /** `f.write` calls of the `iptables` branch. */
  const Iptables := LineFormat(["#!/bin/bash", "# Generated iptables rules", ""], "iptables -A INPUT -s ", " -j DROP", [])
  /** `f.write` calls of the `nginx` branch. */
  const Nginx := LineFormat(["# Generated nginx geo block", "geo $blocked_ip {", "    default 0;"], "    ", " 1;", ["}"])
  /** `f.write` calls of the `apache` branch. */
  const Apache := LineFormat(["# Generated Apache blocklist", "<RequireAll>", "    Require all granted"], "    Require not ip ", "", ["</RequireAll>"])

  /** The line-by-line formats by name; `json` and unknown names are none of them. */
  function LineFormatOf(format: string): (r: Option<LineFormat>)
    ensures r.Some? <==> format == "plain" || format == "iptables" || format == "nginx" || format == "apache"
  {
    if format == "plain" then Some(Plain)
    else if format == "iptables" then Some(Iptables)
    else if format == "nginx" then Some(Nginx)
    else if format == "apache" then Some(Apache)
    else None
  }

  /** No fixed part of the format holds a newline. */
  predicate SingleLines(f: LineFormat) {
    NoNewlines(f.header) && NoNewlines(f.footer) && '\n' !in f.prefix && '\n' !in f.suffix
  }

  /*
   * The fixed texts of the formats hold no newline, one literal at a time.
   * Without these lemmas IptablesSingleLines and ApacheSingleLines cost
   * between 1000000 and 2000000 resource units (over the limit of 2000000
   * on some solver seeds) and NginxSingleLines about 350000; with them,
   * each costs under 80000.
   */
  lemma ShebangLine() ensures '\n' !in "#!/bin/bash" {}
  lemma IptablesCommentLine() ensures '\n' !in "# Generated iptables rules" {}
  lemma IptablesRuleLine() ensures '\n' !in "iptables -A INPUT -s " {}
  lemma IptablesTargetLine() ensures '\n' !in " -j DROP" {}
  lemma NginxCommentLine() ensures '\n' !in "# Generated nginx geo block" {}
  lemma NginxGeoLine() ensures '\n' !in "geo $blocked_ip {" {}
  lemma NginxDefaultLine() ensures '\n' !in "    default 0;" {}
  lemma NginxValueLine() ensures '\n' !in " 1;" {}
  lemma ApacheCommentLine() ensures '\n' !in "# Generated Apache blocklist" {}
  lemma ApacheOpenLine() ensures '\n' !in "<RequireAll>" {}
  lemma ApacheGrantedLine() ensures '\n' !in "    Require all granted" {}
  lemma ApacheRuleLine() ensures '\n' !in "    Require not ip " {}
  lemma ApacheCloseLine() ensures '\n' !in "</RequireAll>" {}

  lemma PlainSingleLines()
    ensures SingleLines(Plain)
  {
  }

  lemma IptablesSingleLines()
    ensures SingleLines(Iptables)
  {
    ShebangLine();
    IptablesCommentLine();
    IptablesRuleLine();
    IptablesTargetLine();
  }

  lemma NginxSingleLines()
    ensures SingleLines(Nginx)
  {
    NginxCommentLine();
    NginxGeoLine();
    NginxDefaultLine();
    NginxValueLine();
  }

  lemma ApacheSingleLines()
    ensures SingleLines(Apache)
  {
    ApacheCommentLine();
    ApacheOpenLine();
    ApacheGrantedLine();
    ApacheRuleLine();
    ApacheCloseLine();
  }

  /** The text of each network, in order (`[str(ip) for ip in sorted_networks]`). */
  function Names(nets: seq<Net>): (r: seq<string>)
    ensures |r| == |nets|
    ensures forall k :: 0 <= k < |nets| ==> r[k] == FormatNet(nets[k])
  {
    seq(|nets|, k requires 0 <= k < |nets| => FormatNet(nets[k]))
  }

  /** The text of a network never holds a newline, so each one fits on its line. */
  lemma NamesNoNewline(nets: seq<Net>)
    ensures NoNewlines(Names(nets))
  {
    var names := Names(nets);
    forall k | 0 <= k < |names| ensures '\n' !in names[k] {
      FormatNetChars(nets[k]);
      assert forall j :: 0 <= j < |names[k]| ==> NetChar(names[k][j]);
    }
  }

  /** The entry line of each name: `prefix`, the name, `suffix`. */
  function EntryLines(prefix: string, names: seq<string>, suffix: string): (r: seq<string>)
    ensures |r| == |names|
  {
    seq(|names|, k requires 0 <= k < |names| => prefix + names[k] + suffix)
  }

  /** All lines of a line-by-line export: the header, one entry line per network, the footer. */
  function ExportLines(f: LineFormat, names: seq<string>): (r: seq<string>)
    ensures |r| == |f.header| + |names| + |f.footer|
    ensures r[..|f.header|] == f.header && r[|f.header| + |names|..] == f.footer
    ensures forall k :: 0 <= k < |names| ==> r[|f.header| + k] == f.prefix + names[k] + f.suffix
  {
    f.header + EntryLines(f.prefix, names, f.suffix) + f.footer
  }

  /** The lines of `json.dump` with `indent=2` of the list of network texts and the count. */
  function JsonLines(names: seq<string>, total: nat): (r: seq<string>)
    ensures |r| == if names == [] then 4 else |names| + 5
    ensures r[0] == "{" && r[|r| - 1] == "}"
    ensures r[|r| - 2] == "  \"total_count\": " + NatToString(total)
  {
    var count := "  \"total_count\": " + NatToString(total);
    if names == [] then ["{", "  \"blocked_ips\": [],", count, "}"]
    else ["{", "  \"blocked_ips\": ["] + JsonItems(names) + ["  ],", count, "}"]
  }

  /** The list items of the JSON text: each name quoted, a comma after all but the last. */
  function JsonItems(names: seq<string>): (r: seq<string>)
    ensures |r| == |names|
  {
    seq(|names|, k requires 0 <= k < |names| => "    \"" + names[k] + "\"" + (if k + 1 < |names| then "," else ""))
  }

  /**
   * The file `export_to_format` writes for a format name, the texts of the
   * sorted networks and the number of stored networks; nothing for a name
   * it does not know.
   */
  function ExportText(format: string, names: seq<string>, total: nat): (r: string)
    ensures LineFormatOf(format) == None && format != "json" ==> r == ""
  {
    match LineFormatOf(format)
    case Some(f) => Lines(ExportLines(f, names))
    case None => if format == "json" then Join(JsonLines(names, total), '\n') else ""
  }

  /** No line of a line-by-line export holds a newline. */
  lemma ExportLinesNoNewline(f: LineFormat, names: seq<string>)
    requires SingleLines(f) && NoNewlines(names)
    ensures NoNewlines(ExportLines(f, names))
  {
    var lines := ExportLines(f, names);
    forall i | 0 <= i < |lines| ensures '\n' !in lines[i] {
      if |f.header| <= i < |f.header| + |names| {
        assert lines[i] == f.prefix + names[i - |f.header|] + f.suffix;
      }
    }
  }

  /**
   * Reading back a line-by-line export gives exactly its lines: the
   * header, one line per network with the network's text between the
   * format's prefix and suffix, in the order given, and the footer.
   */
  lemma LineExportShape(f: LineFormat, names: seq<string>)
    requires SingleLines(f) && NoNewlines(names)
    ensures SplitLines(Lines(ExportLines(f, names))) == ExportLines(f, names)
  {
    ExportLinesNoNewline(f, names);
    SplitLinesOfLines(ExportLines(f, names));
  }

  lemma ExportTextOf(format: string, f: LineFormat, names: seq<string>, total: nat)
    requires LineFormatOf(format) == Some(f)
    ensures ExportText(format, names, total) == Lines(ExportLines(f, names))
    ensures ExportText(format, names, total) == Lines(f.header + EntryLines(f.prefix, names, f.suffix) + f.footer)
  {
  }

  lemma JsonTextOf(format: string, names: seq<string>, total: nat)
    requires LineFormatOf(format) == None && format == "json"
    ensures ExportText(format, names, total) == Join(JsonLines(names, total), '\n')
  {
  }

  lemma FormatSingleLines(format: string)
    requires LineFormatOf(format).Some?
    ensures SingleLines(LineFormatOf(format).value)
  {
    if format == "plain" {
      PlainSingleLines();
    } else if format == "iptables" {
      IptablesSingleLines();
    } else if format == "nginx" {
      NginxSingleLines();
    } else {
      ApacheSingleLines();
    }
  }

  /**
   * Reading back the `plain`, `iptables`, `nginx` or `apache` export gives
   * exactly its lines: the format's header, one line per network with the
   * network's text between the format's prefix and suffix, in the order
   * given, and the format's footer.
   */
  lemma LineExport(format: string, names: seq<string>, total: nat)
    requires LineFormatOf(format).Some? && NoNewlines(names)
    ensures SplitLines(ExportText(format, names, total)) == ExportLines(LineFormatOf(format).value, names)
  {
    var f := LineFormatOf(format).value;
    FormatSingleLines(format);
    LineExportShape(f, names);
    ExportTextOf(format, f, names, total);
  }

  /** The plain export is the text of each network, one per line, in the order given. */
  lemma PlainExport(names: seq<string>, total: nat)
    requires NoNewlines(names)
    ensures SplitLines(ExportText("plain", names, total)) == names
  {
    LineExport("plain", names, total);
    PlainLines(names);
  }

  lemma PlainLines(names: seq<string>)
    ensures ExportLines(Plain, names) == names
  {
    var lines := ExportLines(Plain, names);
    forall k | 0 <= k < |names| ensures lines[k] == names[k] {
      assert lines[k] == "" + names[k] + "";
    }
  }

  /** iptables writes three lines before the rules; nginx and Apache three before and one after the entries. */
  lemma FormatSizes()
    ensures |Plain.header| == 0 && |Plain.footer| == 0
    ensures |Iptables.header| == 3 && |Iptables.footer| == 0
    ensures |Nginx.header| == 3 && |Nginx.footer| == 1
    ensures |Apache.header| == 3 && |Apache.footer| == 1
  {
  }

  /**
   * The JSON export reads back as its lines: one quoted line per network,
   * in the order given, and a `total_count` line that carries the count.
   */
  lemma JsonExport(names: seq<string>, total: nat)
    requires NoNewlines(names)
    ensures SplitLines(ExportText("json", names, total)) == JsonLines(names, total)
  {
    var lines := JsonLines(names, total);
    forall i | 0 <= i < |lines| ensures '\n' !in lines[i] {
      JsonLineNoNewline(names, total, i);
    }
    SplitJoin(lines, '\n');
    JoinHasSeparator(lines, '\n');
  }

  /** Between the opening lines and the closing ones, the JSON text has one quoted network text per line, in order. */
  lemma JsonItemsShape(names: seq<string>, total: nat, k: nat)
    requires k < |names|
    ensures JsonLines(names, total)[k + 2] == "    \"" + names[k] + "\"" + (if k + 1 < |names| then "," else "")
  {
    assert JsonLines(names, total)[k + 2] == JsonItems(names)[k];
  }

  lemma JsonLineNoNewline(names: seq<string>, total: nat, i: nat)
    requires NoNewlines(names)
    requires i < |JsonLines(names, total)|
    ensures '\n' !in JsonLines(names, total)[i]
  {
    var lines := JsonLines(names, total);
    var d := NatToString(total);
    assert '\n' !in d by {
      assert forall j :: 0 <= j < |d| ==> IsDigit(d[j]);
    }
    if names != [] && 2 <= i < |names| + 2 {
      var items := JsonItems(names);
      assert lines[i] == items[i - 2];
    }
  }
}
