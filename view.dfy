/**
 * The command package's own event formatter, used by `view`. It is the terminal formatter of
 * Format with one difference: only notes and commits get their own icon; every other type,
 * undo included, gets the bullet. Its duration formatter is the same text as Format's and is
 * modelled there.
 */
module View {
  import opened Text
  import opened Model
  import opened Format

  function FormatEvent(e: Event, hashColor: string -> string): (r: (string, string))
    ensures r.0 == (if e.kind == Note then NoteIcon else if e.kind == GitCommit then CommitIcon else OtherIcon)
    ensures e.kind != Undo ==> r == FormatEventWithStyle(e, hashColor)
    ensures e.kind == Undo ==> r == (OtherIcon, FormatEventWithStyle(e, hashColor).1)
    ensures '\n' !in r.1
  {
    var icon := if e.kind == Note then NoteIcon else if e.kind == GitCommit then CommitIcon else OtherIcon;
    (icon, StyledSummary(e, hashColor))
  }

  /** A trimmed note line is shown as it is, also when a line break follows it. */
  lemma FormatEventSingleLine(e: Event, hashColor: string -> string, line: string)
    requires e.kind == Note
    requires line != [] && !IsSpace(line[0]) && !IsSpace(line[|line| - 1]) && '\n' !in line
    requires e.content == line || e.content == line + "\n"
    ensures FormatEvent(e, hashColor) == (NoteIcon, line)
  {
    SingleLineKeeps(line);
  }

  /** A note with a second, non-blank line is cut to its first line followed by " ...". */
  lemma FormatEventMultiLine(e: Event, hashColor: string -> string, first: string, rest: string)
    requires e.kind == Note
    requires first != [] && !IsSpace(first[0]) && '\n' !in first
    requires TrimRightSpace(rest) != []
    requires e.content == first + "\n" + rest
    ensures FormatEvent(e, hashColor) == (NoteIcon, first + " ...")
  {
    SingleLineCuts(first, rest);
  }

  /** A oneline commit followed by a stat block shows as "msg (hash)". */
  lemma FormatEventCommitCase(e: Event, hashColor: string -> string, hash: string, msg: string, rest: string)
    requires e.kind == GitCommit && hash != "commit"
    requires hash != [] && forall i | 0 <= i < |hash| :: !IsSpace(hash[i])
    requires msg != [] && !IsSpace(msg[0]) && !IsSpace(msg[|msg| - 1]) && '\n' !in msg && '\n' !in hash
    requires e.content == hash + " " + msg + "\n" + rest
    requires '\n' !in hashColor(hash)
    ensures FormatEvent(e, hashColor) == (CommitIcon, msg + " (" + hashColor(hash) + ")")
  {
    var line := hash + " " + msg;
    assert e.content == line + "\n" + rest;
    assert '\n' !in line;
    IndexOfAfter(line, '\n', rest);
    assert (line + "\n" + rest)[..|line|] == line;
    StyledCommitOneline(e, hashColor, hash, msg);
  }
}
