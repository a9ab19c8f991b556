/**
 * The handful of Python `str` operations the blocklist tools rely on, as
 * functions on `seq<char>`: `strip()`, `startswith()`, `split(sep)`,
 * `split()`, `sep.join()`, line splitting, and decimal and hexadecimal
 * digits.
 */
module Text {

  /** Python's `str.isspace()` on one character: what `strip()` and `split()` treat as blank. */
  predicate IsSpace(c: char) {
    || c == ' '
    || ('\t' <= c <= '\r')
    || ('\U{1C}' <= c <= '\U{1F}')
    || c == '\U{85}' || c == '\U{A0}' || c == '\U{1680}'
    || ('\U{2000}' <= c <= '\U{200A}')
    || c == '\U{2028}' || c == '\U{2029}' || c == '\U{202F}' || c == '\U{205F}' || c == '\U{3000}'
  }

  /** `s.lstrip()`: the longest suffix of `s` that does not start with a blank. */
  function StripLeft(s: string): (r: string)
    ensures |r| <= |s| && r == s[|s| - |r|..]
    ensures r == "" || !IsSpace(r[0])
    ensures forall i :: 0 <= i < |s| - |r| ==> IsSpace(s[i])
  {
    if s != [] && IsSpace(s[0]) then StripLeft(s[1..]) else s
  }

  /** `s.rstrip()`: the longest prefix of `s` that does not end with a blank. */
  function StripRight(s: string): (r: string)
    ensures |r| <= |s| && r == s[..|r|]
    ensures r == "" || !IsSpace(r[|r| - 1])
    ensures forall i :: |r| <= i < |s| ==> IsSpace(s[i])
  {
    if s != [] && IsSpace(s[|s| - 1]) then StripRight(s[..|s| - 1]) else s
  }

  /** `s.strip()`. */
  function Strip(s: string): string {
    StripRight(StripLeft(s))
  }

  /** A stripped string neither starts nor ends with a blank, and is empty only for an all-blank input. */
  lemma StripShape(s: string)
    ensures var r := Strip(s);
      && (r == "" || (!IsSpace(r[0]) && !IsSpace(r[|r| - 1])))
      && (r == "" <==> forall i :: 0 <= i < |s| ==> IsSpace(s[i]))
  {
    var l := StripLeft(s);
    var r := StripRight(l);
    if r != "" {
      assert r[0] == l[0];
    }
  }

  /** Stripping a string with no blank at either end leaves it as it is. */
  lemma StripUnchanged(s: string)
    requires s == "" || (!IsSpace(s[0]) && !IsSpace(s[|s| - 1]))
    ensures Strip(s) == s
  {
  }

  /** `Strip` is idempotent. */
  lemma StripIdempotent(s: string)
    ensures Strip(Strip(s)) == Strip(s)
  {
    StripShape(s);
    StripUnchanged(Strip(s));
  }

  /** Stripping only removes characters: every character of the result is one of the input. */
  lemma StripChars(s: string, c: char)
    ensures c in Strip(s) ==> c in s
  {
    if c in Strip(s) {
      var l := StripLeft(s);
      var r := StripRight(l);
      var k :| 0 <= k < |r| && r[k] == c;
      assert l[k] == c;
      assert s[|s| - |l| + k] == c;
    }
  }

  /** `s.startswith(p)`. */
  predicate StartsWith(s: string, p: string) {
    |p| <= |s| && s[..|p|] == p
  }

  /** The position of the first `c` in `s`. */
  function IndexOf(s: string, c: char): (i: nat)
    requires c in s
    ensures i < |s| && s[i] == c && c !in s[..i]
  {
    if s[0] == c then 0
    else
      var j := IndexOf(s[1..], c);
      assert s[..j + 1] == [s[0]] + s[1..][..j];
      j + 1
  }

  /** `s.split(sep)` for a one-character separator: never empty, and no piece holds `sep`. */
  function Split(s: string, sep: char): (parts: seq<string>)
    ensures |parts| >= 1
    ensures forall i :: 0 <= i < |parts| ==> sep !in parts[i]
    decreases |s|
  {
    if sep in s then
      var i := IndexOf(s, sep);
      [s[..i]] + Split(s[i + 1..], sep)
    else
      [s]
  }

  /** `sep.join(parts)`. */
  function Join(parts: seq<string>, sep: char): string {
    if |parts| == 0 then ""
    else if |parts| == 1 then parts[0]
    else parts[0] + [sep] + Join(parts[1..], sep)
  }

  /** One step of `Split`: the piece before the first separator, then the split of the rest. */
  lemma SplitStep(s: string, sep: char)
    requires sep in s
    ensures Split(s, sep) == [s[..IndexOf(s, sep)]] + Split(s[IndexOf(s, sep) + 1..], sep)
  {
  }

  /** One step of `Join`: the first piece, the separator, then the join of the rest. */
  lemma JoinStep(parts: seq<string>, sep: char)
    requires |parts| >= 2
    ensures Join(parts, sep) == parts[0] + [sep] + Join(parts[1..], sep)
  {
  }

  /** Joining the pieces of a split gives back the string. */
  lemma {:induction false} JoinSplit(s: string, sep: char)
    ensures Join(Split(s, sep), sep) == s
    decreases |s|
  {
    if sep in s {
      var i := IndexOf(s, sep);
      var rest := s[i + 1..];
      var parts := Split(s, sep);
      SplitStep(s, sep);
      assert parts[0] == s[..i] && parts[1..] == Split(rest, sep);
      JoinStep(parts, sep);
      JoinSplit(rest, sep);
      assert s == s[..i] + [sep] + rest;
    }
  }

  /** Splitting a join of separator-free pieces gives back the pieces. */
  lemma {:induction false} SplitJoin(parts: seq<string>, sep: char)
    requires |parts| >= 1
    requires forall i :: 0 <= i < |parts| ==> sep !in parts[i]
    ensures Split(Join(parts, sep), sep) == parts
  {
    if |parts| > 1 {
      var s := Join(parts, sep);
      var rest := Join(parts[1..], sep);
      JoinStep(parts, sep);
      SplitJoin(parts[1..], sep);
      FirstSeparator(parts[0], sep, rest);
      SplitStep(s, sep);
      assert parts == [parts[0]] + parts[1..];
    }
  }

  /** In `w + [sep] + rest` with no `sep` in `w`, the first separator follows `w`. */
  lemma FirstSeparator(w: string, sep: char, rest: string)
    requires sep !in w
    ensures sep in w + [sep] + rest
    ensures IndexOf(w + [sep] + rest, sep) == |w|
    ensures (w + [sep] + rest)[..|w|] == w && (w + [sep] + rest)[|w| + 1..] == rest
  {
    var s := w + [sep] + rest;
    assert s[|w|] == sep;
  }

  /** A join of two or more pieces holds the separator. */
  lemma JoinHasSeparator(parts: seq<string>, sep: char)
    requires |parts| >= 2
    ensures sep in Join(parts, sep)
  {
    JoinStep(parts, sep);
    assert Join(parts, sep)[|parts[0]|] == sep;
  }

  /** A character occurs in a join only inside a piece or as the separator. */
  lemma {:induction false} InJoin(parts: seq<string>, sep: char, c: char)
    requires c != sep
    requires forall i :: 0 <= i < |parts| ==> c !in parts[i]
    ensures c !in Join(parts, sep)
  {
    if |parts| > 1 {
      InJoin(parts[1..], sep, c);
    }
  }

  /** A property every piece's characters and the separator have holds for every character of the join. */
  lemma {:induction false} JoinAll(parts: seq<string>, sep: char, ok: char -> bool)
    requires ok(sep)
    requires forall i, j :: 0 <= i < |parts| && 0 <= j < |parts[i]| ==> ok(parts[i][j])
    ensures forall k :: 0 <= k < |Join(parts, sep)| ==> ok(Join(parts, sep)[k])
  {
    if |parts| > 1 {
      JoinAll(parts[1..], sep, ok);
      var rest := Join(parts[1..], sep);
      var s := Join(parts, sep);
      assert s == parts[0] + [sep] + rest;
      forall k | 0 <= k < |s| ensures ok(s[k]) {
        if k < |parts[0]| {
          assert s[k] == parts[0][k];
        } else if k > |parts[0]| {
          assert s[k] == rest[k - |parts[0]| - 1];
        }
      }
    } else if |parts| == 1 {
      assert Join(parts, sep) == parts[0];
    }
  }

  /** Joining `n` non-empty pieces gives at least `2n - 1` characters. */
  lemma {:induction false} JoinLength(parts: seq<string>, sep: char)
    requires forall i :: 0 <= i < |parts| ==> parts[i] != ""
    ensures |parts| >= 1 ==> |Join(parts, sep)| >= 2 * |parts| - 1
  {
    if |parts| > 1 {
      JoinLength(parts[1..], sep);
    }
  }

  /** `s.split()` with no argument: the maximal runs of non-blank characters. */
  function Fields(s: string): (r: seq<string>)
    ensures Words(r)
    decreases |s|
  {
    var t := StripLeft(s);
    if t == "" then []
    else
      var w := FirstWord(t);
      var rest := Fields(t[|w|..]);
      AllWords(w, rest);
      [w] + rest
  }

  /** Words: non-empty strings with no blank. */
  predicate Words(ws: seq<string>) {
    forall i :: 0 <= i < |ws| ==> ws[i] != "" && NoSpace(ws[i])
  }

  lemma AllWords(w: string, rest: seq<string>)
    requires w != "" && NoSpace(w) && Words(rest)
    ensures Words([w] + rest)
  {
    var r := [w] + rest;
    forall i | 0 <= i < |r| ensures r[i] != "" && NoSpace(r[i]) {
      if i > 0 {
        assert r[i] == rest[i - 1];
      }
    }
  }

  /** No character of `w` is blank. */
  predicate NoSpace(w: string) {
    forall j :: 0 <= j < |w| ==> !IsSpace(w[j])
  }

  /** The run of non-blank characters that starts `t`: non-empty unless `t` is empty or starts with a blank. */
  function FirstWord(t: string): (w: string)
    ensures |w| <= |t| && w == t[..|w|]
    ensures NoSpace(w)
    ensures |w| == |t| || IsSpace(t[|w|])
    ensures t != "" && !IsSpace(t[0]) ==> w != ""
  {
    if t == [] || IsSpace(t[0]) then "" else [t[0]] + FirstWord(t[1..])
  }

  /** A word followed by nothing or by a blank: the word is the first run of non-blanks. */
  lemma {:induction false} FirstWordOf(w: string, rest: string)
    requires NoSpace(w)
    requires rest == "" || IsSpace(rest[0])
    ensures FirstWord(w + rest) == w
  {
    if w != "" {
      assert (w + rest)[1..] == w[1..] + rest;
      FirstWordOf(w[1..], rest);
      assert w == [w[0]] + w[1..];
    } else {
      assert w + rest == rest;
    }
  }

  /** A leading word is the first field, and the rest is split on its own. */
  lemma FieldsStep(w: string, rest: string)
    requires w != "" && NoSpace(w)
    requires rest == "" || IsSpace(rest[0])
    ensures Fields(w + rest) == [w] + Fields(rest)
  {
    var s := w + rest;
    assert s[0] == w[0];
    assert StripLeft(s) == s;
    FirstWordOf(w, rest);
    assert s[|w|..] == rest;
  }

  /** A leading blank does not change the fields. */
  lemma FieldsAfterBlank(c: char, s: string)
    requires IsSpace(c)
    ensures Fields([c] + s) == Fields(s)
  {
    hide FirstWord, Words, IsSpace;
    var cs := [c] + s;
    assert cs != [] && IsSpace(cs[0]) && cs[1..] == s;
    assert StripLeft(cs) == StripLeft(s);
  }

  /** A single word is its own only field. */
  lemma FieldsOfWord(w: string)
    requires w != "" && NoSpace(w)
    ensures Fields(w) == [w]
  {
    FieldsStep(w, "");
    assert w + "" == w;
  }

  /** Every character of `s` is blank. */
  predicate AllSpace(s: string) {
    forall j :: 0 <= j < |s| ==> IsSpace(s[j])
  }

  /** Leading blanks do not change the fields. */
  lemma {:induction false} FieldsAfterBlanks(gap: string, s: string)
    requires AllSpace(gap)
    ensures Fields(gap + s) == Fields(s)
    decreases |gap|
  {
    if gap != "" {
      assert gap + s == [gap[0]] + (gap[1..] + s);
      FieldsAfterBlank(gap[0], gap[1..] + s);
      FieldsAfterBlanks(gap[1..], s);
    } else {
      assert gap + s == s;
    }
  }

  /** `(a + gap + b).split()` is `[a, b]` for two words and any run of blanks between them. */
  lemma FieldsOfPair(a: string, gap: string, b: string)
    requires a != "" && NoSpace(a) && b != "" && NoSpace(b)
    requires gap != "" && AllSpace(gap)
    ensures Fields(a + gap + b) == [a, b]
  {
    hide Fields;
    assert a + gap + b == a + (gap + b);
    FieldsStep(a, gap + b);
    FieldsAfterBlanks(gap, b);
    FieldsOfWord(b);
  }

  /** No text holds a newline. */
  predicate NoNewlines(names: seq<string>) {
    forall k :: 0 <= k < |names| ==> '\n' !in names[k]
  }

  /** Each string followed by a newline: what a loop of `f.write(x + '\n')` writes. */
  function Lines(xs: seq<string>): string {
    if xs == [] then "" else xs[0] + "\n" + Lines(xs[1..])
  }

  /**
   * The lines of a text without their terminators, splitting at '\n'
   * only, as iterating over a file opened in text mode and stripping each
   * line sees them; a final newline does not start an extra line. Text mode
   * also ends lines at '\r' and "\r\n"; this function does not.
   */
  function SplitLines(text: string): seq<string> {
    if text == "" then []
    else
      var parts := Split(text, '\n');
      if parts[|parts| - 1] == "" then parts[..|parts| - 1] else parts
  }

  lemma {:induction false} LinesAppend(xs: seq<string>, ys: seq<string>)
    ensures Lines(xs + ys) == Lines(xs) + Lines(ys)
  {
    if xs != [] {
      assert (xs + ys)[0] == xs[0];
      assert (xs + ys)[1..] == xs[1..] + ys;
      LinesAppend(xs[1..], ys);
      calc {
        Lines(xs + ys);
        xs[0] + "\n" + Lines(xs[1..] + ys);
        xs[0] + "\n" + (Lines(xs[1..]) + Lines(ys));
        (xs[0] + "\n" + Lines(xs[1..])) + Lines(ys);
      }
    } else {
      assert xs + ys == ys;
    }
  }

  lemma {:induction false} LinesAsJoin(xs: seq<string>)
    ensures Lines(xs) == Join(xs + [""], '\n')
  {
    if xs != [] {
      assert (xs + [""])[1..] == xs[1..] + [""];
      LinesAsJoin(xs[1..]);
    }
  }

  /** Writing lines with no newline inside them and reading the file back gives the same lines. */
  lemma SplitLinesOfLines(xs: seq<string>)
    requires forall i :: 0 <= i < |xs| ==> '\n' !in xs[i]
    ensures SplitLines(Lines(xs)) == xs
  {
    LinesAsJoin(xs);
    var parts := xs + [""];
    SplitJoin(parts, '\n');
    if xs != [] {
      assert Lines(xs) != "";
      assert parts[..|parts| - 1] == xs;
    }
  }

  predicate IsDigit(c: char) {
    '0' <= c <= '9'
  }

  /** Every character an ASCII decimal digit (Python's `isascii() and isdigit()` on a non-empty string). */
  predicate AllDigits(s: string) {
    forall i :: 0 <= i < |s| ==> IsDigit(s[i])
  }

  function DigitValue(c: char): (d: nat)
    requires IsDigit(c)
    ensures d < 10
  {
    (c as int) - ('0' as int)
  }

  function DigitChar(d: nat): (c: char)
    requires d < 10
    ensures IsDigit(c) && DigitValue(c) == d
  {
    ('0' as int + d) as char
  }

  /** The value of a string of decimal digits, most significant first (`int(s, 10)`). */
  function DecimalValue(s: string): nat
    requires AllDigits(s)
  {
    if s == "" then 0 else 10 * DecimalValue(s[..|s| - 1]) + DigitValue(s[|s| - 1])
  }

  /** A decimal string without leading zeros (`str(n)`) whose value is `n`. */
  function NatToString(n: nat): (s: string)
    ensures s != "" && AllDigits(s) && DecimalValue(s) == n
    ensures |s| == 1 || s[0] != '0'
  {
    if n < 10 then [DigitChar(n)]
    else
      var s := NatToString(n / 10) + [DigitChar(n % 10)];
      assert s[..|s| - 1] == NatToString(n / 10);
      s
  }

  /** A value below `10^k` has at most `k` decimal digits. */
  lemma {:induction false} NatToStringLength(n: nat, k: nat)
    requires 1 <= k && n < Pow10(k)
    ensures |NatToString(n)| <= k
  {
    if n >= 10 {
      NatToStringLength(n / 10, k - 1);
    }
  }

  /** A decimal string's value is below `10^|s|`; a string without a leading zero and longer than one digit is at least 10. */
  lemma {:induction false} DecimalValueBound(s: string)
    requires AllDigits(s)
    ensures DecimalValue(s) < Pow10(|s|)
    ensures |s| >= 2 && s[0] != '0' ==> DecimalValue(s) >= Pow10(|s| - 1)
  {
    if s != "" {
      var p := s[..|s| - 1];
      DecimalValueBound(p);
      if |s| >= 2 && s[0] != '0' {
        assert p[0] == s[0];
        if |p| == 1 {
          assert DecimalValue(p) == DigitValue(p[0]) by {
            assert p[..0] == "";
          }
        }
      }
    }
  }

  function Pow10(k: nat): (r: nat)
    ensures r >= 1
  {
    if k == 0 then 1 else 10 * Pow10(k - 1)
  }

  /** A canonical digit string (no leading zero) is the decimal string of its own value. */
  lemma {:induction false} CanonicalDecimal(s: string)
    requires s != "" && AllDigits(s) && (|s| == 1 || s[0] != '0')
    ensures NatToString(DecimalValue(s)) == s
  {
    var p := s[..|s| - 1];
    var v := DecimalValue(s);
    if |s| == 1 {
      assert p == "";
      assert s == [s[0]];
    } else {
      DecimalValueBound(s);
      assert p[0] == s[0];
      CanonicalDecimal(p);
      assert v / 10 == DecimalValue(p) && v % 10 == DigitValue(s[|s| - 1]);
      assert s == p + [s[|s| - 1]];
    }
  }

  predicate IsHexDigit(c: char) {
    IsDigit(c) || ('a' <= c <= 'f') || ('A' <= c <= 'F')
  }

  predicate AllHexDigits(s: string) {
    forall i :: 0 <= i < |s| ==> IsHexDigit(s[i])
  }

  function HexDigitValue(c: char): (d: nat)
    requires IsHexDigit(c)
    ensures d < 16
  {
    if IsDigit(c) then DigitValue(c)
    else if 'a' <= c <= 'f' then (c as int) - ('a' as int) + 10
    else (c as int) - ('A' as int) + 10
  }

  /** A lower-case hexadecimal digit (Python's `'%x'`). */
  function HexDigitChar(d: nat): (c: char)
    requires d < 16
    ensures IsHexDigit(c) && HexDigitValue(c) == d
    ensures c != ':' && c != '.' && c != '/' && c != '\n' && !IsSpace(c)
  {
    if d < 10 then DigitChar(d) else ('a' as int + d - 10) as char
  }

  /** The value of a string of hexadecimal digits (`int(s, 16)`). */
  function HexValue(s: string): nat
    requires AllHexDigits(s)
  {
    if s == "" then 0 else 16 * HexValue(s[..|s| - 1]) + HexDigitValue(s[|s| - 1])
  }

  /** `'%x' % n`: lower-case hexadecimal without leading zeros. */
  function HexString(n: nat): (s: string)
    ensures s != "" && AllHexDigits(s) && HexValue(s) == n
    ensures forall i :: 0 <= i < |s| ==> s[i] != ':' && s[i] != '.' && s[i] != '/' && s[i] != '\n' && !IsSpace(s[i])
    ensures n == 0 <==> s == "0"
  {
    if n < 16 then [HexDigitChar(n)]
    else
      var s := HexString(n / 16) + [HexDigitChar(n % 16)];
      assert s[..|s| - 1] == HexString(n / 16);
      s
  }

  function Pow16(k: nat): (r: nat)
    ensures r >= 1
  {
    if k == 0 then 1 else 16 * Pow16(k - 1)
  }

  /** A value below `16^k` has at most `k` hexadecimal digits. */
  lemma {:induction false} HexStringLength(n: nat, k: nat)
    requires 1 <= k && n < Pow16(k)
    ensures |HexString(n)| <= k
  {
    if n >= 16 {
      HexStringLength(n / 16, k - 1);
    }
  }

  /** A string of at most `k` hexadecimal digits has a value below `16^k`. */
  lemma {:induction false} HexValueBound(s: string, k: nat)
    requires AllHexDigits(s) && |s| <= k
    ensures HexValue(s) < Pow16(k)
  {
    if s != "" {
      HexValueBound(s[..|s| - 1], k - 1);
    }
  }
}
