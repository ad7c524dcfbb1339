/**
 * The tail command: the lines of the current month's event file are decoded, undecodable lines
 * are skipped, events in hidden directories and (unless global) events outside the working
 * directory are dropped, and the last n remaining events are shown in file order, each with a
 * context label in global mode. The file arrives as its lines, each decoded or not; the
 * relative-time column and the table printing are not modelled.
 */
module Tail {
  import opened Wrappers
  import opened Text
  import opened Model
  import opened Store
  import Hidden
  import Summary

  /** The tail flags: -n, --global and --include-hidden. */
  datatype TailOptions = TailOptions(n: int, global: bool, includeHidden: bool)

  /**
   * Whether the scan keeps an event: outside hidden directories unless those are included, and
   * in non-global mode only when its directory is known and starts with the working directory.
   */
  predicate Visible(e: Event, dirs: map<string, Value>, hiddenDirs: seq<string>, cwd: string, opts: TailOptions)
  {
    var dirPath := DirPath(e, dirs);
    && (opts.includeHidden || !Hidden.IsHiddenDir(dirPath, hiddenDirs))
    && (opts.global || (dirPath != "" && HasPrefix(dirPath, cwd)))
  }

  /** The decoded lines that f keeps, in file order; lines that do not decode are skipped. */
  function Decoded(lines: seq<Option<Event>>, f: Event -> bool): seq<Event>
  {
    if lines == [] then []
    else
      var last := lines[|lines| - 1];
      Decoded(lines[..|lines| - 1], f) + (if last.Some? && f(last.value) then [last.value] else [])
  }

  /** Each event is kept as often as it was decoded when f keeps it, and never otherwise. */
  lemma {:induction false} DecodedCount(lines: seq<Option<Event>>, f: Event -> bool, e: Event)
    ensures multiset(Decoded(lines, f))[e] == if f(e) then multiset(lines)[Some(e)] else 0
  {
    if lines != [] {
      var front, last := lines[..|lines| - 1], lines[|lines| - 1];
      DecodedCount(front, f, e);
      assert lines == front + [last];
    }
  }

  /** The events the scan keeps, in file order. */
  function Scanned(lines: seq<Option<Event>>, dirs: map<string, Value>, hiddenDirs: seq<string>, cwd: string, opts: TailOptions): seq<Event>
  {
    Decoded(lines, e => Visible(e, dirs, hiddenDirs, cwd, opts))
  }

  /**
   * A kept event was decoded from the file and is visible: outside every hidden directory
   * unless those are included, and, in non-global mode, in the working directory or below it by
   * plain string prefix.
   */
  lemma ScannedMember(lines: seq<Option<Event>>, dirs: map<string, Value>, hiddenDirs: seq<string>, cwd: string, opts: TailOptions, e: Event)
    ensures e in Scanned(lines, dirs, hiddenDirs, cwd, opts) <==> Some(e) in lines && Visible(e, dirs, hiddenDirs, cwd, opts)
    ensures e in Scanned(lines, dirs, hiddenDirs, cwd, opts) && !opts.includeHidden ==>
      forall i | 0 <= i < |hiddenDirs| :: !Hidden.Under(DirPath(e, dirs), hiddenDirs[i])
    ensures e in Scanned(lines, dirs, hiddenDirs, cwd, opts) && !opts.global ==>
      DirEntry(e, dirs).Some? && DirEntry(e, dirs).value != "" && HasPrefix(DirEntry(e, dirs).value, cwd)
  {
    DecodedCount(lines, e => Visible(e, dirs, hiddenDirs, cwd, opts), e);
    assert e in Scanned(lines, dirs, hiddenDirs, cwd, opts) <==> e in multiset(Scanned(lines, dirs, hiddenDirs, cwd, opts));
    assert Some(e) in lines <==> Some(e) in multiset(lines);
    Hidden.IsHiddenDirExists(DirPath(e, dirs), hiddenDirs);
  }

  /** The filters of one decoded line, in their order. */
  method Shows(e: Event, dirs: map<string, Value>, hiddenDirs: seq<string>, cwd: string, opts: TailOptions) returns (b: bool)
    ensures b == Visible(e, dirs, hiddenDirs, cwd, opts)
  {
    var dirPath := "";
    if e.ctx.cwdId.Some? && e.ctx.cwdId.value in dirs && dirs[e.ctx.cwdId.value].Str? {
      dirPath := dirs[e.ctx.cwdId.value].s;
    }
    if !opts.includeHidden && Hidden.IsHiddenDir(dirPath, hiddenDirs) {
      return false;
    }
    if !opts.global {
      var shouldShow := false;
      if dirPath != "" && HasPrefix(dirPath, cwd) {
        shouldShow := true;
      }
      if !shouldShow {
        return false;
      }
    }
    return true;
  }

  /** The scanner loop: decoded, visible events appended in file order. */
  method ScanLines(lines: seq<Option<Event>>, dirs: map<string, Value>, hiddenDirs: seq<string>, cwd: string, opts: TailOptions)
    returns (events: seq<Event>)
    ensures events == Scanned(lines, dirs, hiddenDirs, cwd, opts)
  {
    events := [];
    var i := 0;
    while i < |lines|
      invariant 0 <= i <= |lines|
      invariant events == Scanned(lines[..i], dirs, hiddenDirs, cwd, opts)
    {
      assert lines[..i + 1][..i] == lines[..i];
      if lines[i].Some? {
        var e := lines[i].value;
        var keep := Shows(e, dirs, hiddenDirs, cwd, opts);
        if keep {
          events := events + [e];
        }
      }
      i := i + 1;
    }
    assert lines[..|lines|] == lines;
  }

  /**
   * Where the shown events start, as written: len - n when there are more than n events, else
   * 0. For a negative n this lies past the end of the events, where slicing panics.
   */
  function StartAsWritten(count: nat, n: int): (start: int)
    ensures n >= 0 ==> 0 <= start <= count
    ensures n < 0 ==> start > count
  {
    if count > n then count - n else 0
  }

  /** Where the shown events start: the last min(n, count) events, none for a negative n. */
  function TailStart(count: nat, n: int): (start: nat)
    ensures start <= count
    ensures n >= 0 ==> start == StartAsWritten(count, n)
    ensures n >= 0 && count >= n ==> count - start == n
    ensures n >= 0 && count < n ==> start == 0
    ensures n < 0 ==> start == count
  {
    if n < 0 then count else if count > n then count - n else 0
  }

  /** filepath.Base on '/'-separated paths: the last element, with trailing separators ignored. */
  function Base(path: string): (r: string)
    ensures r != []
  {
    if path == [] then "."
    else
      var trimmed := TrimRightChar(path, Hidden.Separator);
      if trimmed == [] then [Hidden.Separator]
      else LastElement(trimmed)
  }

  /** What follows the last separator of s. */
  function LastElement(s: string): (r: string)
    requires s != [] && s[|s| - 1] != Hidden.Separator
    ensures r != [] && Hidden.Separator !in r
    ensures HasSuffix(s, r)
    ensures |r| < |s| ==> s[|s| - |r| - 1] == Hidden.Separator
  {
    if |s| == 1 || s[|s| - 2] == Hidden.Separator then [s[|s| - 1]]
    else LastElement(s[..|s| - 1]) + [s[|s| - 1]]
  }

  /** The base of a directory written as parent + "/" + name is name. */
  lemma {:induction false} BaseOfChild(parent: string, name: string)
    requires name != [] && Hidden.Separator !in name
    ensures Base(parent + [Hidden.Separator] + name) == name
  {
    var p := parent + [Hidden.Separator] + name;
    assert TrimRightChar(p, Hidden.Separator) == p;
    ChildElement(parent, name);
  }

  lemma {:induction false} ChildElement(parent: string, name: string)
    requires name != [] && Hidden.Separator !in name
    ensures LastElement(parent + [Hidden.Separator] + name) == name
    decreases |name|
  {
    var p := parent + [Hidden.Separator] + name;
    if |name| == 1 {
    } else {
      assert p[..|p| - 1] == parent + [Hidden.Separator] + name[..|name| - 1];
      ChildElement(parent, name[..|name| - 1]);
      assert name == name[..|name| - 1] + [name[|name| - 1]];
    }
  }

  /**
   * The context label of global mode: "@" and the repository name when its entry has one, else
   * the folder mark and the base name of the directory, else nothing. Outside global mode there
   * is no label.
   */
  function Label(e: Event, dirs: map<string, Value>, repos: map<string, Value>, global: bool): (r: string)
    ensures !global ==> r == ""
    ensures global && RepoName(e, repos).Some? ==> r == GroupName(e, dirs, repos)
    ensures global && RepoName(e, repos).None? && DirEntry(e, dirs).Some? ==> r == FolderMark + Base(DirEntry(e, dirs).value)
    ensures global && RepoName(e, repos).None? && DirEntry(e, dirs).None? ==> r == "" && GroupName(e, dirs, repos) == Unknown
  {
    if !global then ""
    else
      match RepoName(e, repos)
      case Some(name) => "@" + name
      case None =>
        match DirEntry(e, dirs)
        case Some(p) => FolderMark + Base(p)
        case None => ""
  }

  /** A row of the tail table: the event and its context label. */
  datatype Row = Row(event: Event, context: string)

  /** The rows shown: the last events from start on, in file order, each with its label. */
  function Rows(events: seq<Event>, start: nat, dirs: map<string, Value>, repos: map<string, Value>, global: bool): (r: seq<Row>)
    requires start <= |events|
    ensures |r| == |events| - start
    ensures forall i | 0 <= i < |r| :: r[i] == Row(events[start + i], Label(events[start + i], dirs, repos, global))
  {
    seq(|events| - start, i requires 0 <= i < |events| - start => Row(events[start + i], Label(events[start + i], dirs, repos, global)))
  }

  /** What tail shows: nothing when the month has no file, else the rows. */
  datatype TailOutput = NoEventsThisMonth | Shown(rows: seq<Row>)

  /**
   * The tail command without its printing: "dirs" and "repos" are read as empty when they do not
   * decode; a month without a file shows the no-events message; otherwise the scan, then the
   * last n visible events, oldest first.
   */
  method TailEvents(store: FileStore, hiddenDirs: seq<string>, cwd: string, opts: TailOptions, file: Option<seq<Option<Event>>>)
    returns (out: TailOutput)
    ensures file.None? ==> out == NoEventsThisMonth
    ensures file.Some? ==>
      var events := Scanned(file.value, Summary.DictOrEmpty(store, "dirs"), hiddenDirs, cwd, opts);
      out == Shown(Rows(events, TailStart(|events|, opts.n), Summary.DictOrEmpty(store, "dirs"), Summary.DictOrEmpty(store, "repos"), opts.global))
  {
    var dirsDict := store.LoadDict("dirs");
    var dirs := if dirsDict.Ok? then dirsDict.value else map[];
    var reposDict := store.LoadDict("repos");
    var repos := if reposDict.Ok? then reposDict.value else map[];
    if file.None? {
      return NoEventsThisMonth;
    }
    var events := ScanLines(file.value, dirs, hiddenDirs, cwd, opts);
    var start := 0;
    if opts.n < 0 {
      start := |events|;
    } else if |events| > opts.n {
      start := |events| - opts.n;
    }
    var rows := BuildRows(events, start, dirs, repos, opts.global);
    return Shown(rows);
  }

  /** The print loop's rows, one per shown event. */
  method BuildRows(events: seq<Event>, start: nat, dirs: map<string, Value>, repos: map<string, Value>, global: bool) returns (rows: seq<Row>)
    requires start <= |events|
    ensures rows == Rows(events, start, dirs, repos, global)
  {
    rows := [];
    var i := start;
    while i < |events|
      invariant start <= i <= |events|
      invariant |rows| == i - start
      invariant forall k | 0 <= k < |rows| :: rows[k] == Row(events[start + k], Label(events[start + k], dirs, repos, global))
    {
      rows := rows + [Row(events[i], Label(events[i], dirs, repos, global))];
      i := i + 1;
    }
  }
}
