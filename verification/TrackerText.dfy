/**
 The tracker list as text, from gtk/DetailsDialog.cc: one URL a line, a blank line before
 each next tier. Tiers are 8-bit numbers.
 */
module TrackerText {
  import opened Sequences
  import opened StringViews

  type Tier = t: nat | t < 0x100

  datatype Entry = Entry(url: string, tier: Tier)

  function NextTier(t: Tier): Tier {
    (t + 1) % 0x100
  }

  // ----- stripping a line

  /** The characters isspace accepts in the C locale. */
  predicate IsSpace(c: char) {
    c == ' ' || ('\t' <= c <= '\r')
  }

  function StripFront(s: string): (r: string)
    ensures r != [] ==> !IsSpace(r[0])
    ensures s != [] && !IsSpace(s[0]) ==> r == s
    ensures forall c | c in r :: c in s
  {
    if s != [] && IsSpace(s[0]) then StripFront(s[1..]) else s
  }

  function StripBack(s: string): (r: string)
    ensures r != [] ==> !IsSpace(r[|r| - 1])
    ensures s != [] && !IsSpace(s[|s| - 1]) ==> r == s
    ensures r <= s
  {
    if s != [] && IsSpace(s[|s| - 1]) then StripBack(s[..|s| - 1]) else s
  }

  /** Leading and trailing white space removed. */
  function Strip(s: string): string {
    StripBack(StripFront(s))
  }

  /** A line without the carriage return a Windows file leaves at its end. */
  function DropReturn(line: string): string {
    if line != [] && line[|line| - 1] == '\r' then line[..|line| - 1] else line
  }

  function CleanLine(line: string): string {
    Strip(DropReturn(line))
  }

  /** Space, tab, line feed, vertical tab, form feed and carriage return. */
  const BLANKS := " \t\n\U{0B}\U{0C}\r"

  /** A string is stripped of all the blanks at its ends, and of nothing else. */
  ghost predicate IsStripped(s: string, r: string, from: nat, to: nat) {
    && from <= to <= |s| && r == s[from..to]
    && (forall i | 0 <= i < from || to <= i < |s| :: s[i] in BLANKS)
    && (r != [] ==> r[0] !in BLANKS && r[|r| - 1] !in BLANKS)
  }

  lemma {:induction false} StripFrontMeans(s: string) returns (from: nat)
    ensures from <= |s| && StripFront(s) == s[from..]
    ensures forall i | 0 <= i < from :: s[i] in BLANKS
    decreases |s|
  {
    from := 0;
    if s != [] && IsSpace(s[0]) {
      var k := StripFrontMeans(s[1..]);
      BlanksAreSpaces(s[0]);
      from := k + 1;
      assert forall i | 0 < i < from :: s[i] == s[1..][i - 1];
    }
  }

  lemma {:induction false} StripBackMeans(s: string) returns (to: nat)
    ensures to <= |s| && StripBack(s) == s[..to]
    ensures forall i | to <= i < |s| :: s[i] in BLANKS
    decreases |s|
  {
    to := |s|;
    if s != [] && IsSpace(s[|s| - 1]) {
      to := StripBackMeans(s[..|s| - 1]);
      BlanksAreSpaces(s[|s| - 1]);
      assert forall i | to <= i < |s| - 1 :: s[i] == s[..|s| - 1][i];
    }
  }

  lemma BlanksAreSpaces(c: char)
    ensures IsSpace(c) <==> c in BLANKS
  {
    assert IsSpace(c) ==> c in [' ', '\t', '\n', '\U{0B}', '\U{0C}', '\r'];
  }

  lemma StripMeans(s: string) returns (from: nat, to: nat)
    ensures IsStripped(s, Strip(s), from, to)
  {
    var front, r := StripFront(s), Strip(s);
    from := StripFrontMeans(s);
    var n := StripBackMeans(front);
    to := from + n;
    assert forall i | to <= i < |s| :: s[i] == front[i - from];
    assert r == front[..n] == s[from..to];
    if r != [] {
      BlanksAreSpaces(r[0]);
      BlanksAreSpaces(r[|r| - 1]);
    }
  }

  /** A URL that is neither empty nor spread over lines nor surrounded by white space. */
  ghost predicate IsPlainUrl(url: string) {
    url != [] && url[0] !in BLANKS && url[|url| - 1] !in BLANKS && '\n' !in url
  }

  ghost predicate PlainUrls(v: seq<Entry>) {
    forall e | e in v :: IsPlainUrl(e.url)
  }

  lemma CleanLineOfUrl(url: string)
    requires IsPlainUrl(url)
    ensures CleanLine(url) == url
  {
    BlanksAreSpaces(url[0]);
    BlanksAreSpaces(url[|url| - 1]);
  }

  lemma CleanedIsPlain(line: string)
    requires '\n' !in line && CleanLine(line) != []
    ensures IsPlainUrl(CleanLine(line))
  {
    var dropped := DropReturn(line);
    var front := StripFront(dropped);
    var url := StripBack(front);
    assert url[0] == front[0];
    BlanksAreSpaces(url[0]);
    BlanksAreSpaces(url[|url| - 1]);
    assert forall c | c in url :: c in front;
    assert forall c | c in dropped :: c in line;
  }

  // ----- the parser, as a function of the text

  /** Reads the lines one after the other; a blank one moves on to the next tier. */
  ghost function Parse(text: string, tier: Tier): seq<Entry>
    decreases |text|
  {
    if |text| == 0 then []
    else
      var line := CleanLine(Token(text, '\n'));
      if line == [] then Parse(Rest(text, '\n'), NextTier(tier))
      else [Entry(line, tier)] + Parse(Rest(text, '\n'), tier)
  }

  lemma ParseLine(line: string, rest: string, tier: Tier)
    requires '\n' !in line
    ensures Parse(line + "\n" + rest, tier) ==
            if CleanLine(line) == [] then Parse(rest, NextTier(tier))
            else [Entry(CleanLine(line), tier)] + Parse(rest, tier)
  {
    FindFirst(line, '\n', rest);
    var text := line + "\n" + rest;
    assert text[..|line|] == line && text[|line| + 1..] == rest;
  }

  lemma {:induction false} ParsedIsPlain(text: string, tier: Tier)
    ensures PlainUrls(Parse(text, tier))
    decreases |text|
  {
    if text != [] {
      var line := CleanLine(Token(text, '\n'));
      if line != [] {
        CleanedIsPlain(Token(text, '\n'));
        ParsedIsPlain(Rest(text, '\n'), tier);
      } else {
        ParsedIsPlain(Rest(text, '\n'), NextTier(tier));
      }
    }
  }

  // ----- the same, line by line

  lemma StrippedIsUnique(s: string, q: string, f: nat, t: nat, r: string, g: nat, u: nat)
    requires IsStripped(s, q, f, t) && IsStripped(s, r, g, u)
    ensures q == r
  {
    if q != [] {
      assert q[0] == s[f] && q[|q| - 1] == s[t - 1];
    }
    if r != [] {
      assert r[0] == s[g] && r[|r| - 1] == s[u - 1];
    }
  }

  /** The carriage return would be stripped anyway. */
  lemma CleanIsStrip(line: string)
    ensures CleanLine(line) == Strip(line)
  {
    var dropped := DropReturn(line);
    var f, t := StripMeans(dropped);
    var g, u := StripMeans(line);
    assert dropped[f..t] == line[f..t];
    assert IsStripped(line, CleanLine(line), f, t);
    StrippedIsUnique(line, CleanLine(line), f, t, Strip(line), g, u);
  }

  /** All lines of a text, each one stripped. */
  ghost function StrippedLines(text: string): seq<string>
    decreases |text|
  {
    if |text| == 0 then [] else [Strip(Token(text, '\n'))] + StrippedLines(Rest(text, '\n'))
  }

  lemma {:induction false} LinesAreStripped(text: string)
    ensures |StrippedLines(text)| == |Split(text, '\n')|
    ensures forall k | 0 <= k < |Split(text, '\n')| :: StrippedLines(text)[k] == Strip(Split(text, '\n')[k])
    decreases |text|
  {
    if text != "" {
      LinesAreStripped(Rest(text, '\n'));
    }
  }

  ghost function BlankLines(lines: seq<string>): nat
    decreases |lines|
  {
    if lines == [] then 0 else BlankLines(lines[1..]) + if lines[0] == "" then 1 else 0
  }

  /** The lines that are not blank, each with the number of blank ones before it, after n others. */
  ghost function FromLines(lines: seq<string>, n: nat): seq<Entry>
    decreases |lines|
  {
    if lines == [] then []
    else if lines[0] == "" then FromLines(lines[1..], n + 1)
    else [Entry(lines[0], n % 0x100)] + FromLines(lines[1..], n)
  }

  lemma {:induction false} ParsedFromLines(text: string, n: nat)
    ensures Parse(text, n % 0x100) == FromLines(StrippedLines(text), n)
    decreases |text|
  {
    if text != "" {
      var line, rest := Token(text, '\n'), Rest(text, '\n');
      CleanIsStrip(line);
      NextTierCounts(n);
      ParsedFromLines(rest, if Strip(line) == "" then n + 1 else n);
      assert StrippedLines(text)[1..] == StrippedLines(rest);
    }
  }

  /** Where the entry of line k is, and what it says. */
  ghost predicate ReadsLine(lines: seq<string>, entries: seq<Entry>, k: nat, n: nat)
    requires k < |lines|
  {
    var blanks := BlankLines(lines[..k]);
    lines[k] != "" ==> 0 <= k - blanks < |entries| && entries[k - blanks] == Entry(lines[k], (n + blanks) % 0x100)
  }

  lemma {:induction false} EntriesOfLines(lines: seq<string>, n: nat)
    ensures |FromLines(lines, n)| + BlankLines(lines) == |lines|
    decreases |lines|
  {
    if lines != [] {
      EntriesOfLines(lines[1..], if lines[0] == "" then n + 1 else n);
    }
  }

  lemma BlanksOfPrefix(lines: seq<string>, k: nat)
    requires 0 < k <= |lines|
    ensures BlankLines(lines[..k]) == BlankLines(lines[1..][..k - 1]) + if lines[0] == "" then 1 else 0
  {
    assert lines[..k][1..] == lines[1..][..k - 1];
  }

  lemma {:induction false} EntryOfLine(lines: seq<string>, n: nat, k: nat)
    requires k < |lines|
    ensures ReadsLine(lines, FromLines(lines, n), k, n)
    decreases |lines|
  {
    if k > 0 {
      EntryOfLine(lines[1..], if lines[0] == "" then n + 1 else n, k - 1);
      BlanksOfPrefix(lines, k);
    }
  }

  /**
   Whatever the text, there is one entry for each line that is not blank, in order: the line
   stripped, with the number of blank lines before it, modulo 256, as its tier.
   */
  lemma ParsedLineByLine(text: string)
    ensures
      var lines := StrippedLines(text);
      && |lines| == |Split(text, '\n')| && (forall k | 0 <= k < |lines| :: lines[k] == Strip(Split(text, '\n')[k]))
      && |Parse(text, 0)| + BlankLines(lines) == |lines|
      && forall k | 0 <= k < |lines| :: ReadsLine(lines, Parse(text, 0), k, 0)
  {
    var lines := StrippedLines(text);
    LinesAreStripped(text);
    ParsedFromLines(text, 0);
    EntriesOfLines(lines, 0);
    forall k | 0 <= k < |lines|
      ensures ReadsLine(lines, Parse(text, 0), k, 0)
    {
      EntryOfLine(lines, 0, k);
    }
  }

  // ----- the printer, as a function of the entries

  /** The lines for v, following an entry of the tier given, if any. */
  ghost function PrintAfter(v: seq<Entry>, hasTier: bool, tier: Tier): string
    decreases |v|
  {
    if v == [] then ""
    else
      (if hasTier && tier != v[0].tier then "\n" else "")
      + v[0].url + "\n" + PrintAfter(v[1..], true, v[0].tier)
  }

  ghost function Print(v: seq<Entry>): string {
    PrintAfter(v, false, 0)
  }

  // ----- what a round trip does

  /** The entries with tiers counted up from the one given, one step at each change of tier. */
  ghost function RenumberAfter(v: seq<Entry>, previous: Tier, tier: Tier): seq<Entry>
    decreases |v|
  {
    if v == [] then []
    else
      var t := if v[0].tier != previous then NextTier(tier) else tier;
      [Entry(v[0].url, t)] + RenumberAfter(v[1..], v[0].tier, t)
  }

  ghost function Renumber(v: seq<Entry>): seq<Entry> {
    if v == [] then [] else RenumberAfter(v, v[0].tier, 0)
  }

  /** How often the tier changes within the first entries, up to and including number i. */
  ghost function Changes(v: seq<Entry>, i: nat): nat
    requires i < |v|
    decreases i
  {
    if i == 0 then 0 else Changes(v, i - 1) + (if v[i].tier != v[i - 1].tier then 1 else 0)
  }

  lemma {:induction false} RenumberAfterShape(v: seq<Entry>, previous: Tier, tier: Tier)
    ensures |RenumberAfter(v, previous, tier)| == |v|
    ensures forall i | 0 <= i < |v| :: RenumberAfter(v, previous, tier)[i].url == v[i].url
    ensures v != [] ==> RenumberAfter(v, previous, tier)[0].tier ==
                        if v[0].tier != previous then NextTier(tier) else tier
    ensures forall i | 1 <= i < |v| ::
      RenumberAfter(v, previous, tier)[i].tier ==
      if v[i].tier != v[i - 1].tier then NextTier(RenumberAfter(v, previous, tier)[i - 1].tier)
      else RenumberAfter(v, previous, tier)[i - 1].tier
    decreases |v|
  {
    if v != [] {
      var t := if v[0].tier != previous then NextTier(tier) else tier;
      RenumberAfterShape(v[1..], v[0].tier, t);
      var r, s := RenumberAfter(v, previous, tier), RenumberAfter(v[1..], v[0].tier, t);
      assert forall i | 1 <= i < |v| :: r[i] == s[i - 1] && v[i] == v[1..][i - 1];
    }
  }

  lemma NextTierCounts(n: nat)
    ensures NextTier(n % 0x100) == (n + 1) % 0x100
  {
  }

  /** The new tier of an entry is the number of tier changes before it, modulo 256. */
  lemma {:induction false} RenumberCountsChanges(v: seq<Entry>, i: nat)
    requires i < |v|
    ensures |Renumber(v)| == |v| && Renumber(v)[i] == Entry(v[i].url, Changes(v, i) % 0x100)
    decreases i
  {
    RenumberAfterShape(v, v[0].tier, 0);
    if i > 0 {
      RenumberCountsChanges(v, i - 1);
      NextTierCounts(Changes(v, i - 1));
    }
  }

  lemma ParseUrlLine(e: Entry, rest: string, tier: Tier)
    requires IsPlainUrl(e.url)
    ensures Parse(e.url + "\n" + rest, tier) == [Entry(e.url, tier)] + Parse(rest, tier)
  {
    CleanLineOfUrl(e.url);
    ParseLine(e.url, rest, tier);
  }

  /** The lines of one entry, read back: the blank line first, if there is one, then the URL. */
  lemma ParseEntry(e: Entry, blank: bool, rest: string, tier: Tier)
    requires IsPlainUrl(e.url)
    ensures
      var t := if blank then NextTier(tier) else tier;
      Parse((if blank then "\n" else "") + e.url + "\n" + rest, tier) == [Entry(e.url, t)] + Parse(rest, t)
  {
    var line := e.url + "\n" + rest;
    Regroup(if blank then "\n" else "", e.url, "\n", rest);
    if blank {
      ParseLine("", line, tier);
      assert "" + "\n" + line == "\n" + line;
      ParseUrlLine(e, rest, NextTier(tier));
    } else {
      assert "" + line == line;
      ParseUrlLine(e, rest, tier);
    }
  }

  /** Reading what was printed after an entry of tier "previous", when that entry was read as tier "tier". */
  lemma {:induction false} ParsePrintAfter(v: seq<Entry>, previous: Tier, tier: Tier)
    requires PlainUrls(v)
    ensures Parse(PrintAfter(v, true, previous), tier) == RenumberAfter(v, previous, tier)
    decreases |v|
  {
    if v != [] {
      assert v[0] in v;
      ParseEntry(v[0], v[0].tier != previous, PrintAfter(v[1..], true, v[0].tier), tier);
      ParsePrintAfter(v[1..], v[0].tier, if v[0].tier != previous then NextTier(tier) else tier);
    }
  }

  lemma PrintFirst(v: seq<Entry>)
    requires v != []
    ensures Print(v) == PrintAfter(v, true, v[0].tier)
  {
  }

  /** Printing and reading back keeps the URLs in order and renumbers the tiers. */
  lemma ParsePrint(v: seq<Entry>)
    requires PlainUrls(v)
    ensures Parse(Print(v), 0) == Renumber(v)
  {
    if v != [] {
      PrintFirst(v);
      ParsePrintAfter(v, v[0].tier, 0);
    }
  }

  /** Tiers that start at zero and go on by nothing or one, modulo 256. */
  ghost predicate TiersInStep(v: seq<Entry>) {
    && (v != [] ==> v[0].tier == 0)
    && (forall i | 1 <= i < |v| :: v[i].tier == v[i - 1].tier || v[i].tier == NextTier(v[i - 1].tier))
  }

  lemma {:induction false} InStepIsFixed(v: seq<Entry>, previous: Tier)
    requires v != [] ==> v[0].tier == previous || v[0].tier == NextTier(previous)
    requires forall i | 1 <= i < |v| :: v[i].tier == v[i - 1].tier || v[i].tier == NextTier(v[i - 1].tier)
    ensures RenumberAfter(v, previous, previous) == v
    decreases |v|
  {
    if v != [] {
      InStepIsFixed(v[1..], v[0].tier);
    }
  }

  lemma RenumberFixesIff(v: seq<Entry>)
    ensures Renumber(v) == v <==> TiersInStep(v)
  {
    if v != [] {
      if TiersInStep(v) {
        InStepIsFixed(v, 0);
      }
      RenumberAfterShape(v, v[0].tier, 0);
    }
  }

  /** A list comes back as it was exactly when its URLs are plain and its tiers are in step. */
  lemma RoundTripIff(v: seq<Entry>)
    ensures Parse(Print(v), 0) == v <==> PlainUrls(v) && TiersInStep(v)
  {
    ParsedIsPlain(Print(v), 0);
    if PlainUrls(v) {
      ParsePrint(v);
      RenumberFixesIff(v);
    }
  }

  lemma {:induction false} PrintOfRenumbered(v: seq<Entry>, previous: Tier, tier: Tier)
    ensures PrintAfter(RenumberAfter(v, previous, tier), true, tier) == PrintAfter(v, true, previous)
    decreases |v|
  {
    if v != [] {
      var t := if v[0].tier != previous then NextTier(tier) else tier;
      PrintOfRenumbered(v[1..], v[0].tier, t);
      assert RenumberAfter(v, previous, tier)[1..] == RenumberAfter(v[1..], v[0].tier, t);
    }
  }

  /** Printing, reading and printing again gives the same text. */
  lemma PrintIsStable(v: seq<Entry>)
    requires PlainUrls(v)
    ensures Print(Parse(Print(v), 0)) == Print(v)
  {
    ParsePrint(v);
    if v != [] {
      PrintFirst(v);
      PrintOfRenumbered(v, v[0].tier, 0);
      RenumberAfterShape(v, v[0].tier, 0);
      PrintFirst(Renumber(v));
    }
  }

  /** So any text, once read and printed, is a normal form of itself. */
  lemma NormalForm(text: string)
    ensures Print(Parse(Print(Parse(text, 0)), 0)) == Print(Parse(text, 0))
  {
    ParsedIsPlain(text, 0);
    PrintIsStable(Parse(text, 0));
  }

  // ----- the loops

  /** Reads the text of the tracker list. */
  method UrlTxtToAnnounceEntryVec(text: string) returns (entries: seq<Entry>)
    ensures entries == Parse(text, 0)
  {
    entries := [];
    var currentTier: Tier := 0;
    var rest := text;
    while rest != []
      invariant entries + Parse(rest, currentTier) == Parse(text, 0)
      decreases |rest|
    {
      var line := Token(rest, '\n');
      var left := Rest(rest, '\n');
      if line != [] && line[|line| - 1] == '\r' {
        line := line[..|line| - 1];
      }
      line := Strip(line);
      if line == [] {
        currentTier := NextTier(currentTier);
      } else {
        MoveOver(entries, Entry(line, currentTier), Parse(left, currentTier));
        entries := entries + [Entry(line, currentTier)];
      }
      rest := left;
    }
  }

  /** Prints the tracker list. */
  method AnnounceEntryVecToTxt(v: seq<Entry>) returns (text: string)
    ensures text == Print(v)
  {
    text := "";
    var hasTier, currentTier: Tier := false, 0;
    for i := 0 to |v|
      invariant text + PrintAfter(v[i..], hasTier, currentTier) == Print(v)
    {
      PrintOne(text, v[i..], hasTier, currentTier);
      assert v[i..][1..] == v[i + 1..];
      if hasTier && currentTier != v[i].tier {
        text := text + "\n";
      }
      text := text + v[i].url;
      text := text + "\n";
      hasTier, currentTier := true, v[i].tier;
    }
  }

  lemma PrintOne(text: string, v: seq<Entry>, hasTier: bool, tier: Tier)
    requires v != []
    ensures text + PrintAfter(v, hasTier, tier) ==
            (if hasTier && tier != v[0].tier then text + "\n" else text) + v[0].url + "\n"
            + PrintAfter(v[1..], true, v[0].tier)
  {
    var blank := if hasTier && tier != v[0].tier then "\n" else "";
    var rest := PrintAfter(v[1..], true, v[0].tier);
    Regroup(blank, v[0].url, "\n", rest);
    Regroup(text + blank, v[0].url, "\n", rest);
    assert text + (blank + (v[0].url + "\n" + rest)) == (text + blank) + (v[0].url + "\n" + rest);
  }

  ghost predicate AllValid(entries: seq<Entry>, isValidTracker: string -> bool) {
    forall e | e in entries :: isValidTracker(e.url)
  }

  lemma AllValidFirst(e: Entry, rest: seq<Entry>, isValidTracker: string -> bool)
    ensures AllValid([e] + rest, isValidTracker) <==> isValidTracker(e.url) && AllValid(rest, isValidTracker)
  {
    assert ([e] + rest)[0] == e;
    assert forall x | x in rest :: x in [e] + rest;
  }

  /** Says whether the text holds valid tracker URLs only; blank lines do not matter. */
  method IsValidUrlTxt(text: string, isValidTracker: string -> bool) returns (ok: bool)
    ensures ok <==> AllValid(Parse(text, 0), isValidTracker)
  {
    var rest := text;
    ghost var tier: Tier := 0;
    while rest != []
      invariant AllValid(Parse(rest, tier), isValidTracker) <==> AllValid(Parse(text, 0), isValidTracker)
      decreases |rest|
    {
      var line := Token(rest, '\n');
      ghost var now := rest;
      rest := Rest(rest, '\n');
      if line != [] && line[|line| - 1] == '\r' {
        line := line[..|line| - 1];
      }
      line := Strip(line);
      assert line == CleanLine(Token(now, '\n'));
      if line == [] {
        tier := NextTier(tier);
      } else {
        assert Parse(now, tier) == [Entry(line, tier)] + Parse(rest, tier);
        AllValidFirst(Entry(line, tier), Parse(rest, tier), isValidTracker);
        if !isValidTracker(line) {
          return false;
        }
      }
    }
    return true;
  }
}
