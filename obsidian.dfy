/**
 * The Obsidian sync target: the daily-note file name, the generated "wips-cli logs" section,
 * and the splice of that section into the existing note. Reading and writing the note, the
 * home-directory expansion and the directory creation are not modelled; the functions here take
 * the note's text and give back the new text.
 */
module Obsidian {
  import opened Wrappers
  import opened Text
  import opened Clock
  import opened Model
  import opened Store
  import Sorting
  import Summary
  import Renderer

  const DefaultSectionHeader: string := "## wips-cli logs"
  /** "{{yyyy}}-{{mm}}-{{dd}}.md", written as its pieces. */
  const DefaultFilenameFormat: string := "{{yyyy}}" + ("-" + ("{{mm}}" + ("-" + ("{{dd}}" + ".md"))))

  /** The parts of the Obsidian configuration the target reads. */
  datatype ObsidianConfig = ObsidianConfig(
    enabled: bool, path: string, dailyFilenameFormat: string, sectionHeader: string, appendAt: string)

  /** The section header in effect: the configured one, or the default when none is set. */
  function SectionHeader(cfg: ObsidianConfig): (r: string)
    ensures r != []
    ensures cfg.sectionHeader != "" ==> r == cfg.sectionHeader
  {
    if cfg.sectionHeader == "" then DefaultSectionHeader else cfg.sectionHeader
  }

  // ---------------------------------------------------------------------------------------
  // The file name
  // ---------------------------------------------------------------------------------------

  /**
   * strings.NewReplacer with the three date placeholders: scanning left to right, each
   * placeholder is replaced and skipped, every other character is copied; replaced text is not
   * scanned again.
   */
  function ReplaceDate(s: string, y: string, m: string, d: string): string
    decreases |s|
  {
    if s == [] then []
    else if HasPrefix(s, "{{yyyy}}") then y + ReplaceDate(s[8..], y, m, d)
    else if HasPrefix(s, "{{mm}}") then m + ReplaceDate(s[6..], y, m, d)
    else if HasPrefix(s, "{{dd}}") then d + ReplaceDate(s[6..], y, m, d)
    else [s[0]] + ReplaceDate(s[1..], y, m, d)
  }

  /** formatFilename: the date's "2006", "01" and "02" layouts in place of the year, month and day placeholders. */
  function FormatFilename(format: string, date: int): string
  {
    var c := CivilOfDay(DayIndex(date));
    ReplaceDate(format, YearString(YearOf(c.monthKey)), Padded(MonthOf(c.monthKey), 2), Padded(c.day, 2))
  }

  /** Text without a brace is left as it is. */
  lemma {:induction false} ReplaceDatePlain(s: string, y: string, m: string, d: string)
    requires '{' !in s
    ensures ReplaceDate(s, y, m, d) == s
    decreases |s|
  {
    if s != [] {
      var rest := s[1..];
      assert s == [s[0]] + rest;
      assert '{' !in rest;
      ReplaceDateCopies(s[0], rest, y, m, d);
      ReplaceDatePlain(rest, y, m, d);
    }
  }

  /** Each placeholder at the front is replaced by its part, and the rest is scanned on. */
  lemma ReplaceDatePlaceholders(rest: string, y: string, m: string, d: string)
    ensures ReplaceDate("{{yyyy}}" + rest, y, m, d) == y + ReplaceDate(rest, y, m, d)
    ensures ReplaceDate("{{mm}}" + rest, y, m, d) == m + ReplaceDate(rest, y, m, d)
    ensures ReplaceDate("{{dd}}" + rest, y, m, d) == d + ReplaceDate(rest, y, m, d)
  {
    var s1 := "{{yyyy}}" + rest;
    assert s1[..8] == "{{yyyy}}" && s1[8..] == rest;
    var s2 := "{{mm}}" + rest;
    assert s2[..6] == "{{mm}}" && s2[6..] == rest;
    assert !HasPrefix(s2, "{{yyyy}}") by {
      if |s2| >= 8 {
        assert s2[2] == 'm';
      }
    }
    var s3 := "{{dd}}" + rest;
    assert s3[..6] == "{{dd}}" && s3[6..] == rest;
    assert !HasPrefix(s3, "{{yyyy}}") by {
      if |s3| >= 8 {
        assert s3[2] == 'd';
      }
    }
    assert !HasPrefix(s3, "{{mm}}") by {
      assert s3[2] == 'd';
    }
  }

  /** A character other than a brace is copied. */
  lemma ReplaceDateCopies(c: char, rest: string, y: string, m: string, d: string)
    requires c != '{'
    ensures ReplaceDate([c] + rest, y, m, d) == [c] + ReplaceDate(rest, y, m, d)
  {
    var s := [c] + rest;
    assert s[1..] == rest;
    assert !HasPrefix(s, "{{yyyy}}") && !HasPrefix(s, "{{mm}}") && !HasPrefix(s, "{{dd}}") by {
      assert s[0] == c;
    }
  }

  /** The default format puts the three parts between dashes and adds ".md". */
  lemma DefaultFormatParts(y: string, m: string, d: string)
    ensures ReplaceDate(DefaultFilenameFormat, y, m, d) == y + ("-" + (m + ("-" + (d + ".md"))))
  {
    var r4 := "{{dd}}" + ".md";
    var r2 := "{{mm}}" + ("-" + r4);
    ReplaceDatePlaceholders("-" + r2, y, m, d);
    ReplaceDateCopies('-', r2, y, m, d);
    ReplaceDatePlaceholders("-" + r4, y, m, d);
    ReplaceDateCopies('-', r4, y, m, d);
    ReplaceDatePlaceholders(".md", y, m, d);
    ReplaceDatePlain(".md", y, m, d);
  }

  lemma Regroup(y: string, m: string, d: string)
    ensures y + ("-" + (m + ("-" + (d + ".md")))) == y + "-" + m + "-" + d + ".md"
  {
  }

  /** The default format names the note after its date: "2006-01-02.md". */
  lemma DefaultFilename(date: int)
    ensures FormatFilename(DefaultFilenameFormat, date) == DateString(date) + ".md"
  {
    var c := CivilOfDay(DayIndex(date));
    var y, m, d := YearString(YearOf(c.monthKey)), Padded(MonthOf(c.monthKey), 2), Padded(c.day, 2);
    DefaultFormatParts(y, m, d);
    Regroup(y, m, d);
  }

  // ---------------------------------------------------------------------------------------
  // Header levels
  // ---------------------------------------------------------------------------------------

  /** The number of '#' characters s starts with. */
  function LeadingHashes(s: string): (n: nat)
    ensures n <= |s|
    ensures forall i | 0 <= i < n :: s[i] == '#'
    ensures n == |s| || s[n] != '#'
  {
    if s != [] && s[0] == '#' then 1 + LeadingHashes(s[1..]) else 0
  }

  /** The header level of a line: its leading '#' count once surrounding white space is trimmed. */
  function HeaderLevel(line: string): nat
  {
    LeadingHashes(TrimSpace(line))
  }

  /** getHeaderLevel: counts the '#' characters that start the trimmed line. */
  method GetHeaderLevel(line: string) returns (level: nat)
    ensures level == HeaderLevel(line)
  {
    var trimmed := TrimSpace(line);
    level := 0;
    while level < |trimmed| && trimmed[level] == '#'
      invariant level <= LeadingHashes(trimmed)
    {
      level := level + 1;
    }
  }

  // ---------------------------------------------------------------------------------------
  // Splicing the section into the note
  // ---------------------------------------------------------------------------------------

  /** A line that closes the section: a header of the section's level or above, other than the section header itself. */
  predicate Closes(line: string, header: string, level: nat)
  {
    TrimSpace(line) != header && HasPrefix(line, "#") && HeaderLevel(line) <= level
  }

  /** For each line, whether it trims to the section header. */
  function HeaderFlags(lines: seq<string>, header: string): (r: seq<bool>)
    ensures |r| == |lines|
  {
    seq(|lines|, k requires 0 <= k < |lines| => TrimSpace(lines[k]) == header)
  }

  /** For each line, whether it closes the section. */
  function CloseFlags(lines: seq<string>, header: string, level: nat): (r: seq<bool>)
    ensures |r| == |lines|
  {
    seq(|lines|, k requires 0 <= k < |lines| => Closes(lines[k], header, level))
  }

  /**
   * The scan for the section from line i on, given for each line whether it is the header (hd)
   * and whether it closes the section (cl), and the start found so far: a header line (re)starts
   * the section; once started, the first closing line ends it. The result is (start, end), -1
   * for what was not found.
   */
  function Scan(hd: seq<bool>, cl: seq<bool>, i: nat, start: int): (r: (int, int))
    requires |hd| == |cl| && i <= |hd| && -1 <= start < i
    ensures -1 <= r.0 < |hd| && (r.1 == -1 || 0 <= r.0 < r.1 < |hd|)
    decreases |hd| - i
  {
    if i == |hd| then (start, -1)
    else if hd[i] then Scan(hd, cl, i + 1, i)
    else if start != -1 && cl[i] then (start, i)
    else Scan(hd, cl, i + 1, start)
  }

  /** Where the scan stops: at the closing line, or at the end of the note. */
  function Stop(n: int, r: (int, int)): int
  {
    if r.1 == -1 then n else r.1
  }

  /** No closing line before position j follows a header line. */
  ghost predicate NoEarlierClose(hd: seq<bool>, cl: seq<bool>, j: int)
    requires |hd| == |cl| && j <= |hd|
  {
    forall c | 0 <= c < j && cl[c] :: forall h | 0 <= h < c :: !hd[h]
  }

  /**
   * What the scan finds: no start exactly when no line is the header; otherwise a header line,
   * then no header line and no closing line up to the stop, which is the first closing line
   * after it or the end; and no section was closed before the start.
   */
  ghost predicate Found(hd: seq<bool>, cl: seq<bool>, r: (int, int))
    requires |hd| == |cl| && -1 <= r.0 < |hd| && (r.1 == -1 || 0 <= r.0 < r.1 < |hd|)
  {
    && (r.0 == -1 <==> forall k | 0 <= k < |hd| :: !hd[k])
    && (r.0 >= 0 ==>
          && hd[r.0]
          && (r.1 >= 0 ==> cl[r.1])
          && (forall k | r.0 < k < Stop(|hd|, r) :: !hd[k] && !cl[k])
          && NoEarlierClose(hd, cl, r.0))
  }

  lemma {:induction false} ScanFound(hd: seq<bool>, cl: seq<bool>, i: nat, start: int)
    requires |hd| == |cl| && i <= |hd| && -1 <= start < i
    requires forall k | 0 <= k < |hd| :: !(hd[k] && cl[k])
    requires start == -1 <==> forall k | 0 <= k < i :: !hd[k]
    requires start >= 0 ==> hd[start] && forall k | start < k < i :: !hd[k] && !cl[k]
    requires NoEarlierClose(hd, cl, if start == -1 then i else start)
    ensures Found(hd, cl, Scan(hd, cl, i, start))
    decreases |hd| - i
  {
    if i < |hd| {
      if hd[i] {
        assert NoEarlierClose(hd, cl, i) by {
          if start >= 0 {
            assert forall k | start <= k < i :: !cl[k];
          }
        }
        ScanFound(hd, cl, i + 1, i);
      } else if start != -1 && cl[i] {
      } else {
        ScanFound(hd, cl, i + 1, start);
      }
    }
  }

  /** The scan from the top of the note finds the section as described (a header line never closes it). */
  lemma ScanSpec(hd: seq<bool>, cl: seq<bool>)
    requires |hd| == |cl|
    requires forall k | 0 <= k < |hd| :: !(hd[k] && cl[k])
    ensures Found(hd, cl, Scan(hd, cl, 0, -1))
  {
    ScanFound(hd, cl, 0, -1);
  }

  /** Each line followed by a line break, as the builder writes them. */
  function Lines(ls: seq<string>): string
  {
    if ls == [] then [] else Lines(ls[..|ls| - 1]) + (ls[|ls| - 1] + "\n")
  }

  /**
   * The note rebuilt around the section as written: the lines before the section, the new
   * section without its trailing line breaks, a blank line when more lines follow, and the
   * lines from the stop on, each line followed by a line break.
   */
  function Splice(lines: seq<string>, start: nat, stop: nat, newSection: string): string
    requires start < stop <= |lines|
  {
    Lines(lines[..start]) + (TrimRightChar(newSection, '\n') + "\n") + (if stop < |lines| then "\n" else "") + Lines(lines[stop..])
  }

  /** Where the section lies among the note's lines, as the scan from the top finds it. */
  function Located(lines: seq<string>, header: string): (r: (int, int))
    ensures -1 <= r.0 < |lines| && (r.1 == -1 || 0 <= r.0 < r.1 < |lines|)
  {
    Scan(HeaderFlags(lines, header), CloseFlags(lines, header, HeaderLevel(header)), 0, -1)
  }

  /** A note without the section: the section alone, put on top, or added after a blank line at the bottom. */
  function Appended(appendAt: string, existing: string, newSection: string): string
  {
    if existing == "" then newSection
    else if appendAt == "top" then newSection + "\n" + existing
    else (if HasSuffix(existing, "\n") then existing else existing + "\n") + "\n" + newSection
  }

  /**
   * updateFileContent: the note with the section replaced, or added when it is not there yet.
   * The replacement keeps the rest of the note as it was (SpliceKept); the rebuild as written
   * (Splice) adds a line break at the end of the note whenever a later header closes the section.
   */
  function UpdatedContent(cfg: ObsidianConfig, existing: string, newSection: string): string
  {
    var lines := Split(existing, '\n');
    var r := Located(lines, SectionHeader(cfg));
    if r.0 == -1 then Appended(cfg.appendAt, existing, newSection)
    else SpliceKept(lines, r.0, Stop(|lines|, r), newSection)
  }

  lemma LinesStep(ls: seq<string>, a: int, j: int)
    requires 0 <= a <= j < |ls|
    ensures Lines(ls[a..j + 1]) == Lines(ls[a..j]) + (ls[j] + "\n")
  {
    assert ls[a..j + 1][..j - a] == ls[a..j];
  }

  lemma Assoc(a: string, b: string, c: string)
    ensures (a + b) + c == a + (b + c)
  {
  }

  /** The loop's first test: the line, trimmed, is the section header. */
  method IsSectionHeader(lines: seq<string>, sectionHeader: string, i: nat) returns (b: bool)
    requires i < |lines|
    ensures b == HeaderFlags(lines, sectionHeader)[i]
  {
    b := TrimSpace(lines[i]) == sectionHeader;
  }

  /** The loop's second test, on a line that is not the section header: a header at the section's level or above. */
  method ClosesSection(lines: seq<string>, sectionHeader: string, targetLevel: nat, i: nat) returns (b: bool)
    requires i < |lines| && !HeaderFlags(lines, sectionHeader)[i]
    ensures b == CloseFlags(lines, sectionHeader, targetLevel)[i]
  {
    b := false;
    if HasPrefix(lines[i], "#") {
      var level := GetHeaderLevel(lines[i]);
      b := level <= targetLevel;
    }
  }

  /**
   * One line of the scan: a header line restarts the section; once started, a closing line ends
   * it; any other line moves on.
   */
  method ScanLine(lines: seq<string>, sectionHeader: string, targetLevel: nat, i: nat, startIdx: int)
    returns (newStart: int, closed: bool)
    requires i < |lines| && -1 <= startIdx < i
    ensures closed ==> newStart == startIdx
    ensures closed ==> Scan(HeaderFlags(lines, sectionHeader), CloseFlags(lines, sectionHeader, targetLevel), i, startIdx) == (startIdx, i)
    ensures !closed ==> -1 <= newStart <= i
    ensures !closed ==>
      Scan(HeaderFlags(lines, sectionHeader), CloseFlags(lines, sectionHeader, targetLevel), i, startIdx) ==
      Scan(HeaderFlags(lines, sectionHeader), CloseFlags(lines, sectionHeader, targetLevel), i + 1, newStart)
  {
    var isHeader := IsSectionHeader(lines, sectionHeader, i);
    if isHeader {
      return i, false;
    }
    if startIdx != -1 {
      var closes := ClosesSection(lines, sectionHeader, targetLevel, i);
      if closes {
        return startIdx, true;
      }
    }
    return startIdx, false;
  }

  /** The scan loop of updateFileContent: it stops at the first closing line after the last header line before it. */
  method FindSection(lines: seq<string>, sectionHeader: string, targetLevel: nat) returns (startIdx: int, endIdx: int)
    ensures (startIdx, endIdx) == Scan(HeaderFlags(lines, sectionHeader), CloseFlags(lines, sectionHeader, targetLevel), 0, -1)
  {
    ghost var hd := HeaderFlags(lines, sectionHeader);
    ghost var cl := CloseFlags(lines, sectionHeader, targetLevel);
    startIdx := -1;
    endIdx := -1;
    var i := 0;
    while i < |lines|
      invariant 0 <= i <= |lines| && -1 <= startIdx < i && endIdx == -1
      invariant Scan(hd, cl, 0, -1) == Scan(hd, cl, i, startIdx)
    {
      var closed;
      startIdx, closed := ScanLine(lines, sectionHeader, targetLevel, i, startIdx);
      if closed {
        endIdx := i;
        return;
      }
      i := i + 1;
    }
  }

  /** The lines before the section, each followed by a line break, as the rebuild writes them. */
  method LinesBefore(lines: seq<string>, startIdx: nat) returns (sb: string)
    requires startIdx <= |lines|
    ensures sb == Lines(lines[..startIdx])
  {
    sb := "";
    var j := 0;
    while j < startIdx
      invariant 0 <= j <= startIdx
      invariant sb == Lines(lines[..j])
    {
      LinesStep(lines, 0, j);
      assert lines[0..j + 1] == lines[..j + 1] && lines[0..j] == lines[..j];
      sb := sb + (lines[j] + "\n");
      j := j + 1;
    }
  }

  /** The rebuild of updateFileContent once the section is found, as written. */
  method SpliceLines(lines: seq<string>, startIdx: nat, endIdx: nat, newSection: string) returns (r: string)
    requires startIdx < endIdx <= |lines|
    ensures r == Splice(lines, startIdx, endIdx, newSection)
  {
    var section := TrimRightChar(newSection, '\n');
    var sb := LinesBefore(lines, startIdx);
    sb := sb + (section + "\n");
    if endIdx < |lines| {
      sb := sb + "\n";
    }
    var mid := sb;
    var j := endIdx;
    while j < |lines|
      invariant endIdx <= j <= |lines|
      invariant sb == mid + Lines(lines[endIdx..j])
    {
      LinesStep(lines, endIdx, j);
      Assoc(mid, Lines(lines[endIdx..j]), lines[j] + "\n");
      sb := sb + (lines[j] + "\n");
      j := j + 1;
    }
    assert lines[endIdx..j] == lines[endIdx..];
    r := sb;
  }

  /**
   * The rebuild with the lines from the stop on written back as they were split: joined by line
   * breaks, after the blank line that separates them from the section.
   */
  method SpliceLinesKept(lines: seq<string>, startIdx: nat, endIdx: nat, newSection: string) returns (r: string)
    requires startIdx < endIdx <= |lines|
    ensures r == SpliceKept(lines, startIdx, endIdx, newSection)
  {
    var section := TrimRightChar(newSection, '\n');
    r := LinesBefore(lines, startIdx);
    r := r + (section + "\n");
    if endIdx < |lines| {
      r := r + ("\n" + Join(lines[endIdx..], '\n'));
    }
  }

  /** updateFileContent with the corrected rebuild (see SpliceAddsLineBreak): the scan for the section, then the rebuild. */
  method UpdateFileContent(cfg: ObsidianConfig, existing: string, newSection: string) returns (r: string)
    ensures r == UpdatedContent(cfg, existing, newSection)
  {
    var sectionHeader := cfg.sectionHeader;
    if sectionHeader == "" {
      sectionHeader := DefaultSectionHeader;
    }
    var targetLevel := GetHeaderLevel(sectionHeader);
    var lines := Split(existing, '\n');
    var startIdx, endIdx := FindSection(lines, sectionHeader, targetLevel);
    if startIdx == -1 {
      if existing == "" {
        return newSection;
      }
      if cfg.appendAt == "top" {
        return newSection + "\n" + existing;
      }
      var e := existing;
      if !HasSuffix(e, "\n") {
        e := e + "\n";
      }
      return e + "\n" + newSection;
    }
    if endIdx == -1 {
      endIdx := |lines|;
    }
    r := SpliceLinesKept(lines, startIdx, endIdx, newSection);
  }

  // ---------------------------------------------------------------------------------------
  // What the update does to the note
  // ---------------------------------------------------------------------------------------

  lemma {:induction false} JoinSnoc(ls: seq<string>, x: string, sep: char)
    requires ls != []
    ensures Join(ls + [x], sep) == Join(ls, sep) + [sep] + x
    decreases |ls|
  {
    if |ls| == 1 {
      assert (ls + [x])[1..] == [x];
    } else {
      JoinSnoc(ls[1..], x, sep);
      assert ls + [x] == [ls[0]] + (ls[1..] + [x]);
      JoinCons(ls[0], ls[1..] + [x], sep);
    }
  }

  /** Writing each line with a line break is joining them and adding one at the end. */
  lemma {:induction false} LinesJoin(ls: seq<string>)
    requires ls != []
    ensures Lines(ls) == Join(ls, '\n') + "\n"
    decreases |ls|
  {
    var init := ls[..|ls| - 1];
    if init != [] {
      LinesJoin(init);
      JoinSnoc(init, ls[|ls| - 1], '\n');
      assert init + [ls[|ls| - 1]] == ls;
    }
  }

  /** Joined lines split at a line boundary. */
  lemma {:induction false} JoinAt(ls: seq<string>, k: int, sep: char)
    requires 0 < k < |ls|
    ensures Join(ls, sep) == Join(ls[..k], sep) + [sep] + Join(ls[k..], sep)
    decreases k
  {
    if k > 1 {
      JoinAt(ls[1..], k - 1, sep);
      assert ls[1..][..k - 1] == ls[1..k] == ls[..k][1..];
      assert ls[1..][k - 1..] == ls[k..];
    }
  }

  lemma NoteHead(lines: seq<string>, start: nat)
    requires start < |lines|
    ensures Join(lines, '\n') == Lines(lines[..start]) + Join(lines[start..], '\n')
  {
    if start > 0 {
      JoinAt(lines, start, '\n');
      LinesJoin(lines[..start]);
    } else {
      assert lines[start..] == lines;
    }
  }

  /** The lines from the stop on, joined, after the line break that ends the section; nothing when the section runs to the end. */
  function After(lines: seq<string>, stop: nat): string
    requires stop <= |lines|
  {
    if stop < |lines| then "\n" + Join(lines[stop..], '\n') else ""
  }

  lemma NoteTail(lines: seq<string>, start: nat, stop: nat)
    requires start < stop <= |lines|
    ensures Join(lines[start..], '\n') == Join(lines[start..stop], '\n') + After(lines, stop)
  {
    if stop < |lines| {
      var rest, k := lines[start..], stop - start;
      JoinAt(rest, k, '\n');
      assert rest[..k] == lines[start..stop] && rest[k..] == lines[stop..];
      var a, b := Join(lines[start..stop], '\n'), Join(lines[stop..], '\n');
      assert After(lines, stop) == ['\n'] + b;
      assert a + ['\n'] + b == a + (['\n'] + b);
    } else {
      assert lines[start..] == lines[start..stop];
    }
  }

  /** The note as the lines before the section, the section's lines, and the lines from the stop on. */
  lemma NoteParts(lines: seq<string>, start: nat, stop: nat)
    requires start < stop <= |lines|
    ensures Join(lines, '\n') == Lines(lines[..start]) + Join(lines[start..stop], '\n') + After(lines, stop)
  {
    NoteHead(lines, start);
    NoteTail(lines, start, stop);
  }

  /** The rebuild with the lines after the section joined rather than each followed by a line break. */
  function SpliceKept(lines: seq<string>, start: nat, stop: nat, newSection: string): string
    requires start < stop <= |lines|
  {
    Lines(lines[..start]) + (TrimRightChar(newSection, '\n') + "\n") + After(lines, stop)
  }

  /**
   * The rebuild as written ends with one line break more than the note had whenever a later
   * header closes the section: the last piece of the split, which the note's own final line
   * break leaves empty, is written with a line break of its own.
   */
  lemma SpliceAddsLineBreak(lines: seq<string>, start: nat, stop: nat, newSection: string)
    requires start < stop <= |lines|
    ensures Splice(lines, start, stop, newSection) ==
      SpliceKept(lines, start, stop, newSection) + (if stop < |lines| then "\n" else "")
  {
    var head := Lines(lines[..start]) + (TrimRightChar(newSection, '\n') + "\n");
    if stop < |lines| {
      LinesJoin(lines[stop..]);
      assert Splice(lines, start, stop, newSection) == head + "\n" + (Join(lines[stop..], '\n') + "\n");
    } else {
      assert lines[stop..] == [];
    }
  }

  /** The corrected rebuild keeps the text before and after the section byte for byte and puts the new section between. */
  lemma SpliceKeptKeepsRest(existing: string, start: nat, stop: nat, newSection: string)
    requires start < stop <= |Split(existing, '\n')|
    ensures var lines := Split(existing, '\n');
      var before := Lines(lines[..start]);
      var after := After(lines, stop);
      && existing == before + Join(lines[start..stop], '\n') + after
      && SpliceKept(lines, start, stop, newSection) == before + (TrimRightChar(newSection, '\n') + "\n") + after
  {
    SplitJoin(existing, '\n');
    NoteParts(Split(existing, '\n'), start, stop);
  }

  /** The header line and a closing line never coincide. */
  lemma FlagsDisjoint(lines: seq<string>, header: string)
    ensures var hd := HeaderFlags(lines, header); var cl := CloseFlags(lines, header, HeaderLevel(header));
      forall k | 0 <= k < |hd| :: !(hd[k] && cl[k])
  {
  }

  /** The section added to a note that lacks it: the note's own text is kept whole, the section put before or after it. */
  lemma AppendedKeepsNote(appendAt: string, existing: string, newSection: string)
    ensures var r := Appended(appendAt, existing, newSection);
      && (existing == "" ==> r == newSection)
      && (existing != "" && appendAt == "top" ==> r == newSection + "\n" + existing)
      && (existing != "" && appendAt != "top" ==>
            |r| >= |existing| + 1 + |newSection| && r[..|existing|] == existing && HasSuffix(r, "\n\n" + newSection))
  {
    var r := Appended(appendAt, existing, newSection);
    if existing != "" && appendAt != "top" {
      if HasSuffix(existing, "\n") {
        assert r == existing + "\n" + newSection;
        assert r[|r| - |"\n\n" + newSection|..] == "\n\n" + newSection;
      } else {
        assert r == existing + "\n" + "\n" + newSection;
        assert r[..|existing|] == existing;
      }
    }
  }

  lemma FlagsRead(lines: seq<string>, header: string)
    ensures var hd := HeaderFlags(lines, header); var cl := CloseFlags(lines, header, HeaderLevel(header));
      && (forall k | 0 <= k < |lines| :: hd[k] <==> TrimSpace(lines[k]) == header)
      && (forall k | 0 <= k < |lines| :: cl[k] <==> Closes(lines[k], header, HeaderLevel(header)))
  {
  }

  /** What the scan finds, stated on the lines the flags were read from. */
  ghost predicate LocatedAt(lines: seq<string>, header: string, r: (int, int))
    requires -1 <= r.0 < |lines| && (r.1 == -1 || 0 <= r.0 < r.1 < |lines|)
  {
    var stop := Stop(|lines|, r);
    && (r.0 == -1 <==> forall k | 0 <= k < |lines| :: TrimSpace(lines[k]) != header)
    && (r.0 >= 0 ==>
          && TrimSpace(lines[r.0]) == header
          && (stop < |lines| ==> Closes(lines[stop], header, HeaderLevel(header)))
          && (forall k | r.0 < k < stop :: TrimSpace(lines[k]) != header && !Closes(lines[k], header, HeaderLevel(header))))
  }

  lemma FoundRead(lines: seq<string>, header: string, hd: seq<bool>, cl: seq<bool>, r: (int, int))
    requires |hd| == |cl| == |lines|
    requires forall k | 0 <= k < |lines| :: hd[k] <==> TrimSpace(lines[k]) == header
    requires forall k | 0 <= k < |lines| :: cl[k] <==> Closes(lines[k], header, HeaderLevel(header))
    requires -1 <= r.0 < |lines| && (r.1 == -1 || 0 <= r.0 < r.1 < |lines|)
    requires Found(hd, cl, r)
    ensures LocatedAt(lines, header, r)
  {
  }

  /** What the scan locates, read off the note's lines. */
  lemma LocatedSpec(lines: seq<string>, header: string)
    ensures LocatedAt(lines, header, Located(lines, header))
  {
    var hd := HeaderFlags(lines, header);
    var cl := CloseFlags(lines, header, HeaderLevel(header));
    FlagsDisjoint(lines, header);
    ScanSpec(hd, cl);
    FlagsRead(lines, header);
    FoundRead(lines, header, hd, cl, Located(lines, header));
  }

  /** A note without the section line gets the section added, the note's own text kept whole. */
  lemma UpdateWithoutSection(cfg: ObsidianConfig, existing: string, newSection: string)
    requires forall k | 0 <= k < |Split(existing, '\n')| :: TrimSpace(Split(existing, '\n')[k]) != SectionHeader(cfg)
    ensures UpdatedContent(cfg, existing, newSection) == Appended(cfg.appendAt, existing, newSection)
  {
    LocatedSpec(Split(existing, '\n'), SectionHeader(cfg));
  }

  /**
   * A note with the section line has the section replaced: from the last header line that no
   * closing line follows before it, up to the first closing line after it or the end of the note.
   * The text before the section and the text from the closing line on are kept byte for byte.
   */
  lemma UpdateWithSection(cfg: ObsidianConfig, existing: string, newSection: string, i: nat)
    requires i < |Split(existing, '\n')| && TrimSpace(Split(existing, '\n')[i]) == SectionHeader(cfg)
    ensures var lines := Split(existing, '\n');
      var r := Located(lines, SectionHeader(cfg));
      var stop := Stop(|lines|, r);
      && 0 <= r.0 < stop <= |lines|
      && LocatedAt(lines, SectionHeader(cfg), r)
      && existing == Lines(lines[..r.0]) + Join(lines[r.0..stop], '\n') + After(lines, stop)
      && UpdatedContent(cfg, existing, newSection) ==
         Lines(lines[..r.0]) + (TrimRightChar(newSection, '\n') + "\n") + After(lines, stop)
  {
    var lines := Split(existing, '\n');
    LocatedSpec(lines, SectionHeader(cfg));
    var r := Located(lines, SectionHeader(cfg));
    SpliceKeptKeepsRest(existing, r.0, Stop(|lines|, r), newSection);
  }

  /** An empty note becomes the section itself. */
  lemma UpdateEmptyNote(cfg: ObsidianConfig, newSection: string)
    ensures UpdatedContent(cfg, "", newSection) == newSection
  {
    assert Split("", '\n') == [""];
    assert TrimSpace("") == "";
    UpdateWithoutSection(cfg, "", newSection);
  }

  // ---------------------------------------------------------------------------------------
  // The generated section
  // ---------------------------------------------------------------------------------------

  /** The events with their headings; a note covers one day, so every entry carries the same empty date. */
  function Keyed(events: seq<Event>, dirs: map<string, Value>, repos: map<string, Value>): (r: seq<Summary.Entry>)
    ensures |r| == |events|
  {
    seq(|events|, i requires 0 <= i < |events| => Summary.Entry("", GroupName(events[i], dirs, repos), events[i]))
  }


  /** The headings and their events as the loop collects them, the headings in the order they first occur. */
  function Collected(xs: seq<Summary.Entry>): Summary.DayDirGroup
  {
    if xs == [] then Summary.DayDirGroup("", map[], [])
    else Summary.AddToGroup(Collected(xs[..|xs| - 1]), xs[|xs| - 1].name, xs[|xs| - 1].event)
  }

  lemma CollectedStep(events: seq<Event>, i: int, dirs: map<string, Value>, repos: map<string, Value>)
    requires 0 <= i < |events|
    ensures Collected(Keyed(events[..i + 1], dirs, repos)) ==
      Summary.AddToGroup(Collected(Keyed(events[..i], dirs, repos)), GroupName(events[i], dirs, repos), events[i])
  {
    var xs := Keyed(events[..i + 1], dirs, repos);
    assert xs[..i] == Keyed(events[..i], dirs, repos);
  }

  /**
   * The collected headings are distinct and are the map's keys; each heading's events are the
   * events under that heading, in their order, and there is at least one.
   */
  lemma {:induction false} CollectedDescribes(xs: seq<Summary.Entry>)
    requires forall i | 0 <= i < |xs| :: xs[i].date == ""
    ensures Collected(xs).date == "" && Summary.GroupDescribes(Collected(xs), xs)
  {
    if xs == [] {
      Summary.GroupDescribesFresh("", xs);
    } else {
      var init := xs[..|xs| - 1];
      CollectedDescribes(init);
      Summary.AddToGroupDescribes(Collected(init), init, xs[|xs| - 1]);
      assert init + [xs[|xs| - 1]] == xs;
    }
  }

  /**
   * generateContent: the section header and a blank line, then one block per heading in
   * ascending order: the heading as a third-level title, its events' lines, a blank line.
   */
  function Generated(cfg: ObsidianConfig, events: seq<Event>, dirs: map<string, Value>, repos: map<string, Value>): string
  {
    var g := Collected(Keyed(events, dirs, repos));
    SectionHeader(cfg) + "\n\n" + Renderer.DirBlocks(Sorting.SortStrings(g.dirOrder), g.dirMap, true)
  }

  /** The headings of the section: ascending, each once, exactly the events' headings, each holding its events in order. */
  lemma GeneratedHeadings(events: seq<Event>, dirs: map<string, Value>, repos: map<string, Value>)
    ensures var g := Collected(Keyed(events, dirs, repos));
      var order := Sorting.SortStrings(g.dirOrder);
      && Sorting.Sorted(order)
      && Sorting.Distinct(order)
      && (forall n :: n in order <==> exists i | 0 <= i < |events| :: GroupName(events[i], dirs, repos) == n)
      && (forall n | n in order :: n in g.dirMap && g.dirMap[n].name == n
            && g.dirMap[n].events == Summary.Select(Keyed(events, dirs, repos), "", n))
  {
    var g := Collected(Keyed(events, dirs, repos));
    CollectedKeys(events, dirs, repos);
    Sorting.SortStringsSpec(g.dirOrder);
    Sorting.SortStringsDistinct(g.dirOrder);
  }

  /** The collected headings are exactly the events' headings, each described by its entries. */
  lemma CollectedKeys(events: seq<Event>, dirs: map<string, Value>, repos: map<string, Value>)
    ensures var xs := Keyed(events, dirs, repos);
      var g := Collected(xs);
      && Summary.GroupDescribes(g, xs)
      && g.date == ""
      && (forall n :: n in g.dirMap <==> exists i | 0 <= i < |events| :: GroupName(events[i], dirs, repos) == n)
  {
    var xs := Keyed(events, dirs, repos);
    var g := Collected(xs);
    CollectedDescribes(xs);
    forall n ensures n in g.dirMap <==> exists i | 0 <= i < |events| :: GroupName(events[i], dirs, repos) == n {
      if n in g.dirMap {
        var e := g.dirMap[n].events[0];
        Summary.SelectMember(xs, "", n, e);
        var i :| 0 <= i < |xs| && xs[i] == Summary.Entry("", n, e);
        assert GroupName(events[i], dirs, repos) == n;
      }
      if i :| 0 <= i < |events| && GroupName(events[i], dirs, repos) == n {
        assert xs[i] == Summary.Entry("", n, events[i]);
        Summary.SelectMember(xs, "", n, events[i]);
      }
    }
  }

  /** The section opens with its header and shows every event's line under its heading's title. */
  lemma GeneratedShowsEvent(cfg: ObsidianConfig, events: seq<Event>, dirs: map<string, Value>, repos: map<string, Value>, i: int)
    requires 0 <= i < |events|
    ensures var text := Generated(cfg, events, dirs, repos);
      && HasPrefix(text, SectionHeader(cfg) + "\n\n")
      && Contains(text, Renderer.DirHeading(GroupName(events[i], dirs, repos), true))
      && Contains(text, Renderer.EventLine(events[i], true))
  {
    var xs := Keyed(events, dirs, repos);
    var g := Collected(xs);
    var order := Sorting.SortStrings(g.dirOrder);
    var n := GroupName(events[i], dirs, repos);
    var head := SectionHeader(cfg) + "\n\n";
    var blocks := Renderer.DirBlocks(order, g.dirMap, true);
    GeneratedHeadings(events, dirs, repos);
    assert n in order;
    assert xs[i] == Summary.Entry("", n, events[i]);
    Summary.SelectMember(xs, "", n, events[i]);
    Renderer.ShowsInDirBlock(g.dirMap[n], true, events[i]);
    Renderer.DirBlocksShow(order, g.dirMap, n, true, Renderer.DirHeading(n, true));
    Renderer.DirBlocksShow(order, g.dirMap, n, true, Renderer.EventLine(events[i], true));
    ContainsRight(head, blocks, Renderer.DirHeading(n, true));
    ContainsRight(head, blocks, Renderer.EventLine(events[i], true));
    assert (head + blocks)[..|head|] == head;
  }

  /** The grouping loop of generateContent: each event filed under its heading, a new heading appended to the order. */
  method CollectByHeading(events: seq<Event>, dirs: map<string, Value>, repos: map<string, Value>)
    returns (dirGroups: map<string, Summary.DirGroup>, dirOrder: seq<string>)
    ensures Summary.DayDirGroup("", dirGroups, dirOrder) == Collected(Keyed(events, dirs, repos))
    ensures forall n | n in dirOrder :: n in dirGroups
  {
    dirGroups := map[];
    dirOrder := [];
    var i := 0;
    while i < |events|
      invariant 0 <= i <= |events|
      invariant Summary.DayDirGroup("", dirGroups, dirOrder) == Collected(Keyed(events[..i], dirs, repos))
      invariant forall n | n in dirOrder :: n in dirGroups
    {
      var e := events[i];
      var dirName := GroupName(e, dirs, repos);
      CollectedStep(events, i, dirs, repos);
      if dirName !in dirGroups {
        dirGroups := dirGroups[dirName := Summary.DirGroup(dirName, [])];
        dirOrder := dirOrder + [dirName];
      }
      dirGroups := dirGroups[dirName := Summary.DirGroup(dirName, dirGroups[dirName].events + [e])];
      i := i + 1;
    }
    assert events[..i] == events;
  }

  /** generateContent as the source runs it: collect the headings, sort them, write the blocks. */
  method GenerateContent(cfg: ObsidianConfig, store: FileStore, events: seq<Event>) returns (content: string)
    ensures content == Generated(cfg, events, Summary.DictOrEmpty(store, "dirs"), Summary.DictOrEmpty(store, "repos"))
  {
    var dirsDict := store.LoadDict("dirs");
    var dirs := if dirsDict.Ok? then dirsDict.value else map[];
    var reposDict := store.LoadDict("repos");
    var repos := if reposDict.Ok? then reposDict.value else map[];

    var sectionHeader := cfg.sectionHeader;
    if sectionHeader == "" {
      sectionHeader := DefaultSectionHeader;
    }
    var sb := sectionHeader + "\n\n";

    var dirGroups, dirOrder := CollectByHeading(events, dirs, repos);
    Sorting.SortStringsSpec(dirOrder);
    dirOrder := Sorting.SortStrings(dirOrder);
    assert forall n | n in dirOrder :: n in multiset(dirOrder);
    var blocks := Renderer.DirsText(Summary.DayDirGroup("", dirGroups, dirOrder), true);
    content := sb + blocks;
  }

  // ---------------------------------------------------------------------------------------
  // Syncing
  // ---------------------------------------------------------------------------------------

  /** The "2006-01-02" date an event is synced under. */
  function DateOf(e: Event): string
  {
    DateString(e.ts)
  }

  /** The events whose key is k, in their order. */
  function WithKey(events: seq<Event>, key: Event -> string, k: string): (r: seq<Event>)
    ensures forall e | e in r :: e in events && key(e) == k
  {
    if events == [] then []
    else
      var last := events[|events| - 1];
      WithKey(events[..|events| - 1], key, k) + (if key(last) == k then [last] else [])
  }

  /** Sync's grouping: each key some event has, with the events of that key in their order. */
  function Batches(events: seq<Event>, key: Event -> string): map<string, seq<Event>>
  {
    if events == [] then map[]
    else
      var m := Batches(events[..|events| - 1], key);
      var last := events[|events| - 1];
      var k := key(last);
      m[k := (if k in m then m[k] else []) + [last]]
  }

  /** The batches are exactly the events' keys. */
  lemma {:induction false} BatchKeys(events: seq<Event>, key: Event -> string)
    ensures forall k :: k in Batches(events, key) <==> exists i | 0 <= i < |events| :: key(events[i]) == k
  {
    if events != [] {
      var init := events[..|events| - 1];
      BatchKeys(init, key);
      var m := Batches(init, key);
      forall k ensures k in Batches(events, key) <==> exists i | 0 <= i < |events| :: key(events[i]) == k {
        if k in m {
          var i :| 0 <= i < |init| && key(init[i]) == k;
          assert events[i] == init[i];
        }
        if i :| 0 <= i < |events| && key(events[i]) == k {
          if i < |init| {
            assert init[i] == events[i];
          }
        }
      }
    }
  }

  lemma {:induction false} WithKeyNone(events: seq<Event>, key: Event -> string, k: string)
    requires forall i | 0 <= i < |events| :: key(events[i]) != k
    ensures WithKey(events, key, k) == []
  {
    if events != [] {
      WithKeyNone(events[..|events| - 1], key, k);
    }
  }

  /** Each batch holds all the events of its key and only those, in their order, and at least one. */
  lemma {:induction false} BatchContents(events: seq<Event>, key: Event -> string)
    ensures forall k | k in Batches(events, key) :: Batches(events, key)[k] == WithKey(events, key, k) && Batches(events, key)[k] != []
  {
    if events != [] {
      var init := events[..|events| - 1];
      var last := events[|events| - 1];
      BatchContents(init, key);
      BatchKeys(init, key);
      var m := Batches(init, key);
      if key(last) !in m {
        WithKeyNone(init, key, key(last));
      }
    }
  }

  lemma BatchesStep(events: seq<Event>, key: Event -> string, i: int)
    requires 0 <= i < |events|
    ensures Batches(events[..i + 1], key) ==
      var m := Batches(events[..i], key);
      var k := key(events[i]);
      m[k := (if k in m then m[k] else []) + [events[i]]]
  {
    assert events[..i + 1][..i] == events[..i];
  }

  /** Sync: a disabled target writes nothing; otherwise the events go out in one batch per date. */
  method SyncBatches(cfg: ObsidianConfig, events: seq<Event>) returns (eventsByDate: map<string, seq<Event>>)
    ensures eventsByDate == (if cfg.enabled then Batches(events, DateOf) else map[])
  {
    if !cfg.enabled {
      return map[];
    }
    eventsByDate := map[];
    var i := 0;
    while i < |events|
      invariant 0 <= i <= |events|
      invariant eventsByDate == Batches(events[..i], DateOf)
    {
      var event := events[i];
      var dateStr := DateString(event.ts);
      BatchesStep(events, DateOf, i);
      eventsByDate := eventsByDate[dateStr := (if dateStr in eventsByDate then eventsByDate[dateStr] else []) + [event]];
      i := i + 1;
    }
    assert events[..i] == events;
  }

  /** The note file a sync writes: its name and its new text. */
  datatype NoteWrite = NoteWrite(fileName: string, content: string)

  /**
   * syncDate for one date's events: the note is named after the date, the section generated
   * from the events, and the note's text (or the empty text for a note that is created) updated
   * with it. A missing note is skipped unless notes may be created. date is any instant of the
   * day; dirs and repos are the dictionaries as read.
   */
  function SyncDate(cfg: ObsidianConfig, createMissing: bool, date: int, events: seq<Event>,
                    dirs: map<string, Value>, repos: map<string, Value>, existing: Option<string>): Option<NoteWrite>
  {
    var format := if cfg.dailyFilenameFormat == "" then DefaultFilenameFormat else cfg.dailyFilenameFormat;
    var fileName := FormatFilename(format, date);
    var content := Generated(cfg, events, dirs, repos);
    match existing
    case Some(text) => Some(NoteWrite(fileName, UpdatedContent(cfg, text, content)))
    case None => if createMissing then Some(NoteWrite(fileName, content)) else None
  }

  /**
   * A created note holds exactly the generated section, and so does an existing empty one; with
   * no configured format the file is named "2006-01-02.md" after its date.
   */
  lemma SyncDateNewNote(cfg: ObsidianConfig, createMissing: bool, date: int, events: seq<Event>,
                        dirs: map<string, Value>, repos: map<string, Value>, existing: Option<string>)
    requires existing == None || existing == Some("")
    ensures var w := SyncDate(cfg, createMissing, date, events, dirs, repos, existing);
      && (w.None? <==> existing == None && !createMissing)
      && (w.Some? ==> w.value.content == Generated(cfg, events, dirs, repos))
      && (w.Some? && cfg.dailyFilenameFormat == "" ==> w.value.fileName == DateString(date) + ".md")
  {
    UpdateEmptyNote(cfg, Generated(cfg, events, dirs, repos));
    DefaultFilename(date);
  }
}
