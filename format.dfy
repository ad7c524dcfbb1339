/**
 * One-line renderings of an event for the terminal, for the summary view and for plain-text
 * export, and the bucketing of a duration into minutes, hours, days or weeks.
 *
 * Terminal colouring is outside the model: the colour applied to a commit hash is a parameter
 * (`hashColor` for the fatih/color style, `render` for the lipgloss style).
 */
module Format {
  import opened Wrappers
  import opened Text
  import opened Clock
  import opened Model

  const NoteIcon: string := "📝"
  const CommitIcon: string := "🔧"
  const UndoIcon: string := "\U{21A9}\U{FE0F} "
  const OtherIcon: string := "•"

  /** The first line of a commit message read as `git show --oneline` prints it: a hash, then the message. */
  datatype CommitLine = CommitLine(hash: string, msg: string)

  /**
   * Splits a first line with at least two fields into its first field and the rest of the line
   * with surrounding white space removed; None for a line with fewer than two fields. The hash is
   * cut off only when the line starts with it: a line with leading white space keeps it in the
   * message.
   */
  function ParseCommitLine(line: string): (r: Option<CommitLine>)
    ensures r.Some? <==> |Fields(line)| >= 2
    ensures r.Some? ==> r.value.hash != [] && forall i | 0 <= i < |r.value.hash| :: !IsSpace(r.value.hash[i])
    ensures r.Some? ==> line != [] && r.value.hash == Fields(line)[0]
    ensures r.Some? && !IsSpace(line[0]) ==>
      |r.value.hash| <= |line| && r.value.msg == TrimSpace(line[|r.value.hash|..])
    ensures r.Some? && IsSpace(line[0]) ==> r.value.msg == TrimSpace(line)
  {
    var parts := Fields(line);
    if |parts| >= 2 then
      var hash := parts[0];
      FieldsFirstPrefix(line);
      Some(CommitLine(hash, TrimSpace(TrimPrefix(line, hash))))
    else None
  }

  /**
   * A line made of a hash word, one space and a trimmed message parses back into that hash and
   * that message: the oneline shape the formatters expect.
   */
  lemma ParseCommitLineOneline(hash: string, msg: string)
    requires hash != [] && forall i | 0 <= i < |hash| :: !IsSpace(hash[i])
    requires msg != [] && !IsSpace(msg[0]) && !IsSpace(msg[|msg| - 1])
    ensures ParseCommitLine(hash + " " + msg) == Some(CommitLine(hash, msg))
  {
    TrimPrefixWord(hash, msg);
    SpaceThenTrimmed(msg);
    FieldsWordSpace(hash, msg);
  }

  lemma TrimPrefixWord(hash: string, msg: string)
    ensures TrimPrefix(hash + " " + msg, hash) == [' '] + msg
  {
    var line := hash + " " + msg;
    assert line[..|hash|] == hash;
    assert line[|hash|..] == [' '] + msg;
  }

  lemma SpaceThenTrimmed(msg: string)
    requires msg != [] && !IsSpace(msg[0]) && !IsSpace(msg[|msg| - 1])
    ensures TrimSpace([' '] + msg) == msg
  {
    TrimLeftSpaceCons(' ', msg);
    TrimSpaceKeeps(msg);
  }

  /** The parts parsed from a line without a line break have none either. */
  lemma ParsedOnOneLine(line: string)
    requires '\n' !in line
    ensures ParseCommitLine(line).Some? ==>
      '\n' !in ParseCommitLine(line).value.hash && '\n' !in ParseCommitLine(line).value.msg
  {
    if ParseCommitLine(line).Some? {
      var c := ParseCommitLine(line).value;
      var rest := TrimPrefix(line, c.hash);
      assert forall ch | ch in rest :: ch in line by {
        if HasPrefix(line, c.hash) {
          assert line == c.hash + rest;
        }
      }
      assert forall i | 0 <= i < |c.hash| :: !IsSpace(c.hash[i]);
    }
  }

  /** Trims the text and, if a line break remains, keeps what precedes it followed by " ...". */
  function SingleLine(s: string): (r: string)
    ensures '\n' !in r
    ensures '\n' !in TrimSpace(s) ==> r == TrimSpace(s)
    ensures '\n' in TrimSpace(s) ==> r == FirstLine(TrimSpace(s)) + " ..."
  {
    var t := TrimSpace(s);
    var i := IndexOf(t, '\n');
    if i == -1 then t else t[..i] + " ..."
  }

  /** A trimmed single line is shown unchanged, also when a line break follows it. */
  lemma SingleLineKeeps(line: string)
    requires line != [] && !IsSpace(line[0]) && !IsSpace(line[|line| - 1]) && '\n' !in line
    ensures SingleLine(line) == line
    ensures SingleLine(line + "\n") == line
  {
    TrimSpaceKeeps(line);
    assert TrimLeftSpace(line + "\n") == line + "\n" by {
      assert (line + "\n")[0] == line[0];
    }
    assert (line + "\n")[..|line|] == line;
    assert TrimRightSpace(line + "\n") == TrimRightSpace(line);
  }

  /** Text with a second line that is not blank is cut to its first line and " ...". */
  lemma SingleLineCuts(first: string, rest: string)
    requires first != [] && !IsSpace(first[0]) && '\n' !in first
    requires TrimRightSpace(rest) != []
    ensures SingleLine(first + "\n" + rest) == first + " ..."
  {
    TrimmedLines(first, rest);
    CutAtNewline(first, TrimRightSpace(rest));
  }

  lemma TrimmedLines(first: string, rest: string)
    requires first != [] && !IsSpace(first[0])
    requires TrimRightSpace(rest) != []
    ensures TrimSpace(first + "\n" + rest) == first + "\n" + TrimRightSpace(rest)
  {
    var tail := "\n" + rest;
    assert first + "\n" + rest == first + tail;
    TrimRightSpaceAppend("\n", rest);
    assert TrimRightSpace(tail) == "\n" + TrimRightSpace(rest);
    TrimSpaceAppend(first, tail);
    assert first + ("\n" + TrimRightSpace(rest)) == first + "\n" + TrimRightSpace(rest);
  }

  lemma CutAtNewline(first: string, tail: string)
    requires '\n' !in first
    ensures IndexOf(first + "\n" + tail, '\n') == |first|
    ensures (first + "\n" + tail)[..|first|] == first
  {
    IndexOfAfter(first, '\n', tail);
  }

  /** The commit rewrite of the terminal formatters: "msg (hash)" unless the first field is "commit". */
  function StyledCommit(content: string, hashColor: string -> string): string
  {
    match ParseCommitLine(FirstLine(content))
    case Some(c) => if c.hash == "commit" then content else c.msg + " (" + hashColor(c.hash) + ")"
    case None => content
  }

  /** The summary both terminal formatters print: the commit rewrite, then a single trimmed line. */
  function StyledSummary(e: Event, hashColor: string -> string): (r: string)
    ensures '\n' !in r
    ensures e.kind != GitCommit ==> r == SingleLine(e.content)
  {
    SingleLine(if e.kind == GitCommit then StyledCommit(e.content, hashColor) else e.content)
  }

  function StyleIcon(kind: string): string
  {
    if kind == Note then NoteIcon
    else if kind == GitCommit then CommitIcon
    else if kind == Undo then UndoIcon
    else OtherIcon
  }

  /** FormatEventWithStyle: the icon of the event's type and its single-line summary. */
  function FormatEventWithStyle(e: Event, hashColor: string -> string): (r: (string, string))
    ensures e.kind == Note ==> r.0 == NoteIcon
    ensures e.kind == GitCommit ==> r.0 == CommitIcon
    ensures e.kind == Undo ==> r.0 == UndoIcon
    ensures e.kind !in {Note, GitCommit, Undo} ==> r.0 == OtherIcon
    ensures '\n' !in r.1
    ensures e.kind != GitCommit ==> r.1 == SingleLine(e.content)
    ensures e.kind == GitCommit ==>
      var p := ParseCommitLine(FirstLine(e.content));
      && (p.Some? && p.value.hash != "commit" ==> r.1 == SingleLine(p.value.msg + " (" + hashColor(p.value.hash) + ")"))
      && (p.None? || p.value.hash == "commit" ==> r.1 == SingleLine(e.content))
  {
    (StyleIcon(e.kind), StyledSummary(e, hashColor))
  }

  lemma StyledCommitParsed(content: string, hashColor: string -> string, c: CommitLine)
    requires ParseCommitLine(FirstLine(content)) == Some(c) && c.hash != "commit"
    ensures StyledCommit(content, hashColor) == c.msg + " (" + hashColor(c.hash) + ")"
  {
  }

  /** "msg (h)" on one line with msg trimmed on the left is its own single-line form. */
  lemma Parenthesized(msg: string, h: string)
    requires msg != [] && !IsSpace(msg[0]) && '\n' !in msg && '\n' !in h
    ensures SingleLine(msg + " (" + h + ")") == msg + " (" + h + ")"
  {
    var s := msg + " (" + h + ")";
    InConcat('\n', msg, " (");
    InConcat('\n', msg + " (", h);
    InConcat('\n', msg + " (" + h, ")");
    assert s[0] == msg[0] && s[|s| - 1] == ')';
    TrimSpaceKeeps(s);
  }

  /**
   * A oneline commit "hash msg" with a trimmed message, possibly followed by further lines,
   * is shown as "msg (hash)" unless its hash word is "commit".
   */
  lemma StyledCommitOneline(e: Event, hashColor: string -> string, hash: string, msg: string)
    requires e.kind == GitCommit && hash != "commit"
    requires hash != [] && forall i | 0 <= i < |hash| :: !IsSpace(hash[i])
    requires msg != [] && !IsSpace(msg[0]) && !IsSpace(msg[|msg| - 1])
    requires FirstLine(e.content) == hash + " " + msg
    requires '\n' !in hashColor(hash)
    ensures FormatEventWithStyle(e, hashColor).1 == msg + " (" + hashColor(hash) + ")"
  {
    ParseCommitLineOneline(hash, msg);
    StyledCommitParsed(e.content, hashColor, CommitLine(hash, msg));
    InConcat('\n', hash + " ", msg);
    Parenthesized(msg, hashColor(hash));
  }

  /** FormatEventPlain: non-commit content as it is; a commit's first line, as "msg [hash]" when it has two fields. */
  function FormatEventPlain(e: Event): (r: string)
    ensures e.kind != GitCommit ==> r == e.content
    ensures e.kind == GitCommit ==> '\n' !in r
    ensures e.kind == GitCommit && |Fields(FirstLine(e.content))| < 2 ==> r == FirstLine(e.content)
    ensures e.kind == GitCommit && |Fields(FirstLine(e.content))| >= 2 ==>
      var c := ParseCommitLine(FirstLine(e.content)).value;
      r == c.msg + " [" + c.hash + "]"
  {
    if e.kind == GitCommit then
      var line := FirstLine(e.content);
      match ParseCommitLine(line)
      case Some(c) =>
        ParsedOnOneLine(line);
        Bracketed(c.msg, c.hash);
        c.msg + " [" + c.hash + "]"
      case None => line
    else e.content
  }

  lemma Bracketed(msg: string, hash: string)
    requires '\n' !in msg && '\n' !in hash
    ensures '\n' !in msg + " [" + hash + "]"
  {
    InConcat('\n', msg, " [");
    InConcat('\n', msg + " [", hash);
    InConcat('\n', msg + " [" + hash, "]");
  }

  /** A oneline commit "hash msg" exports as "msg [hash]". */
  lemma PlainCommitOneline(e: Event, hash: string, msg: string)
    requires e.kind == GitCommit
    requires hash != [] && forall i | 0 <= i < |hash| :: !IsSpace(hash[i])
    requires msg != [] && !IsSpace(msg[0]) && !IsSpace(msg[|msg| - 1])
    requires FirstLine(e.content) == hash + " " + msg
    ensures FormatEventPlain(e) == msg + " [" + hash + "]"
  {
    ParseCommitLineOneline(hash, msg);
  }

  /**
   * FormatEventForSummary: the commit icon or the undo icon, else the note icon. A commit shows
   * "msg (hash)" or its bare first line; any other event shows its first line, with "..." added
   * exactly when there are further lines. Nothing is trimmed.
   */
  function FormatEventForSummary(e: Event, render: string -> string): (r: (string, string))
    ensures r.0 == (if e.kind == GitCommit then CommitIcon else if e.kind == Undo then UndoIcon else NoteIcon)
    ensures e.kind != GitCommit ==> r.1 == FirstLine(e.content) + (if '\n' in e.content then "..." else "")
    ensures e.kind == GitCommit && |Fields(FirstLine(e.content))| < 2 ==> r.1 == FirstLine(e.content)
    ensures e.kind == GitCommit && |Fields(FirstLine(e.content))| >= 2 ==>
      var c := ParseCommitLine(FirstLine(e.content)).value;
      r.1 == c.msg + " (" + render(c.hash) + ")"
  {
    var icon := if e.kind == GitCommit then CommitIcon else if e.kind == Undo then UndoIcon else NoteIcon;
    if e.kind == GitCommit then
      var firstLine := Split(e.content, '\n')[0];
      match ParseCommitLine(firstLine)
      case Some(c) => (icon, c.msg + " (" + render(c.hash) + ")")
      case None => (icon, firstLine)
    else
      var lines := Split(e.content, '\n');
      (icon, lines[0] + (if |lines| > 1 then "..." else ""))
  }

  /** Go's truncating integer division (toward zero). */
  function TruncDiv(a: int, b: int): (q: int)
    requires b > 0
    ensures a >= 0 ==> q * b <= a < (q + 1) * b
    ensures a < 0 ==> (q - 1) * b < a <= q * b
  {
    if a >= 0 then a / b else -((-a) / b)
  }

  /** `%d`: a minus sign for a negative number, then its decimal digits. */
  function IntString(n: int): string
  {
    if n < 0 then "-" + Decimal(-n) else Decimal(n)
  }

  function UnitNs(unit: char): int
  {
    if unit == 'm' then NsPerMinute else if unit == 'h' then NsPerHour else if unit == 'd' then NsPerDay else NsPerWeek
  }

  /**
   * The bucket of a duration in nanoseconds and the whole number of its units, truncated:
   * minutes below an hour, hours below a day, days below a week, weeks beyond.
   */
  function DurationParts(d: int): (r: (int, char))
    ensures r.1 == (if d < NsPerHour then 'm' else if d < NsPerDay then 'h' else if d < NsPerWeek then 'd' else 'w')
    ensures d >= 0 ==> 0 <= r.0 && r.0 * UnitNs(r.1) <= d < (r.0 + 1) * UnitNs(r.1)
    ensures d < 0 ==> r.0 <= 0 && (r.0 - 1) * UnitNs(r.1) < d <= r.0 * UnitNs(r.1)
  {
    var unit := if d < NsPerHour then 'm' else if d < NsPerDay then 'h' else if d < NsPerWeek then 'd' else 'w';
    (TruncDiv(d, UnitNs(unit)), unit)
  }

  /** Every bucket below weeks holds fewer units than the next bucket's size, and no bucket above minutes starts at zero. */
  lemma DurationBuckets(d: int)
    requires d >= 0
    ensures var (n, unit) := DurationParts(d);
      && (unit == 'm' ==> n < 60)
      && (unit == 'h' ==> 1 <= n < 24)
      && (unit == 'd' ==> 1 <= n < 7)
      && (unit == 'w' ==> 1 <= n)
  {
  }

  /** FormatDuration: the truncated count followed by its unit letter. */
  function FormatDuration(d: int): (r: string)
    ensures r == IntString(DurationParts(d).0) + [DurationParts(d).1]
    ensures d >= 0 ==> forall i | 0 <= i < |r| - 1 :: IsDigit(r[i])
  {
    var (n, unit) := DurationParts(d);
    IntString(n) + [unit]
  }

  /** Just below an hour is still minutes; a full hour reads as hours. */
  lemma FormatDurationHourBoundary()
    ensures FormatDuration(NsPerHour - 1) == "59m"
    ensures FormatDuration(NsPerHour) == "1h"
  {
    assert DurationParts(NsPerHour - 1) == (59, 'm');
    assert Decimal(59) == "59";
    assert DurationParts(NsPerHour) == (1, 'h');
  }

  /** Exactly 24 hours already reads as one day; a nanosecond less is 23 hours. */
  lemma FormatDurationDayBoundary()
    ensures FormatDuration(NsPerDay - 1) == "23h"
    ensures FormatDuration(NsPerDay) == "1d"
  {
    assert DurationParts(NsPerDay - 1) == (23, 'h');
    assert Decimal(23) == "23";
    assert DurationParts(NsPerDay) == (1, 'd');
  }

  /** Exactly seven days already reads as one week; a nanosecond less is 6 days. */
  lemma FormatDurationWeekBoundary()
    ensures FormatDuration(NsPerWeek - 1) == "6d"
    ensures FormatDuration(NsPerWeek) == "1w"
    ensures FormatDuration(2 * NsPerWeek) == "2w"
  {
    assert DurationParts(NsPerWeek - 1) == (6, 'd');
    assert DurationParts(NsPerWeek) == (1, 'w');
    assert DurationParts(2 * NsPerWeek) == (2, 'w');
  }
}
