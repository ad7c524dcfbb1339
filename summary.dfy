/**
 * The summary use case: picks the time range from the options and the current time, reads the
 * events of that range, drops those the type and hidden-directory filters reject, and groups
 * the rest by calendar day and, within a day, by repository or directory heading. The store,
 * the clock reading and the hidden list arrive as parameters.
 */
module Summary {
  import opened Wrappers
  import opened Clock
  import opened Model
  import opened Store
  import Hidden
  import Sorting

  datatype SummaryOptions = SummaryOptions(
    week: bool,
    lastWeek: bool,
    days: int,
    commitsOnly: bool,
    notesOnly: bool,
    includeHidden: bool,
    hiddenOnly: bool,
    hiddenDirs: seq<string>)

  /** The events of one heading on one day, in the order they were read. */
  datatype DirGroup = DirGroup(name: string, events: seq<Event>)

  /** One day: its "2006-01-02" date, the groups by heading, and the order the headings are shown in. */
  datatype DayDirGroup = DayDirGroup(date: string, dirMap: map<string, DirGroup>, dirOrder: seq<string>)

  datatype SummaryResult = SummaryResult(start: int, end: int, dayGroups: seq<DayDirGroup>)

  // ---------------------------------------------------------------------------------------
  // Time range
  // ---------------------------------------------------------------------------------------

  /** DayIndex of a whole number of days since the epoch. */
  lemma DayIndexOfDays(k: int)
    ensures DayIndex(k * NsPerDay) == k && (k * NsPerDay) % NsPerDay == 0
  {
  }

  /** The Monday a week before a Monday midnight is a Monday midnight too. */
  lemma WeekBefore(m: int)
    requires m % NsPerDay == 0 && Weekday(m) == 1
    ensures (m - NsPerWeek) % NsPerDay == 0 && Weekday(m - NsPerWeek) == 1
  {
    var d := DayIndex(m);
    assert m == d * NsPerDay;
    assert m - NsPerWeek == (d - 7) * NsPerDay;
    DayIndexOfDays(d - 7);
  }

  /**
   * Midnight of the Monday that starts the week of ts, counting Sunday as the seventh day of
   * the week it ends (weekday 0 is taken as 7).
   */
  function WeekStart(ts: int): (r: int)
    ensures r % NsPerDay == 0 && Weekday(r) == 1
    ensures r <= ts < r + NsPerWeek
  {
    var w := Weekday(ts);
    var weekday := if w == 0 then 7 else w;
    var d := DayIndex(ts) - (weekday - 1);
    DayIndexOfDays(d);
    d * NsPerDay
  }

  /**
   * The range [start, end] a summary covers, both ends included. The last-week option wins over
   * the week option, which wins over a positive day count; without any of them it is today so far.
   */
  function SummaryRange(opts: SummaryOptions, now: int): (r: (int, int))
    ensures opts.lastWeek ==>
      && r.0 % NsPerDay == 0 && Weekday(r.0) == 1
      && r.1 == r.0 + NsPerWeek - 1
      && r.1 < now <= r.1 + NsPerWeek
    ensures !opts.lastWeek && opts.week ==>
      && r.0 % NsPerDay == 0 && Weekday(r.0) == 1
      && r.0 <= now < r.0 + NsPerWeek
      && r.1 == now
    ensures !opts.lastWeek && !opts.week && opts.days > 0 ==>
      && r.0 % NsPerDay == 0 && DayIndex(r.0) == DayIndex(now) - opts.days
      && r.1 == now
    ensures !opts.lastWeek && !opts.week && opts.days <= 0 ==>
      && r.0 % NsPerDay == 0 && DayIndex(r.0) == DayIndex(now)
      && r.1 == now
  {
    if opts.lastWeek then
      var thisMonday := WeekStart(now);
      WeekBefore(thisMonday);
      (thisMonday - NsPerWeek, thisMonday - 1)
    else if opts.week then
      (WeekStart(now), now)
    else if opts.days > 0 then
      var d := DayIndex(now) - opts.days;
      DayIndexOfDays(d);
      (d * NsPerDay, now)
    else
      (Midnight(now), now)
  }

  // ---------------------------------------------------------------------------------------
  // Filtering
  // ---------------------------------------------------------------------------------------

  /**
   * The filter of one event: the type options first; then, when hidden directories are
   * configured, the event's directory (resolved through "dirs", "" when unknown) must be hidden
   * for the hidden-only option and must not be hidden unless hidden ones are included.
   */
  predicate Keep(e: Event, opts: SummaryOptions, dirs: map<string, Value>)
  {
    && !(opts.commitsOnly && e.kind != GitCommit)
    && !(opts.notesOnly && e.kind != Note)
    && (|opts.hiddenDirs| > 0 ==>
          var hidden := Hidden.IsHiddenDir(DirPath(e, dirs), opts.hiddenDirs);
          if opts.hiddenOnly then hidden else opts.includeHidden || !hidden)
  }

  /** The events the filter keeps, in their order. */
  function Filtered(events: seq<Event>, opts: SummaryOptions, dirs: map<string, Value>): (r: seq<Event>)
    ensures |r| <= |events|
  {
    if events == [] then []
    else
      var last := events[|events| - 1];
      Filtered(events[..|events| - 1], opts, dirs) + (if Keep(last, opts, dirs) then [last] else [])
  }

  lemma {:induction false} FilteredMember(events: seq<Event>, opts: SummaryOptions, dirs: map<string, Value>, e: Event)
    ensures e in Filtered(events, opts, dirs) <==> e in events && Keep(e, opts, dirs)
  {
    if events != [] {
      FilteredMember(events[..|events| - 1], opts, dirs, e);
      assert events == events[..|events| - 1] + [events[|events| - 1]];
    }
  }

  /** Asking for commits only and notes only at once keeps nothing. */
  lemma {:induction false} BothTypeFiltersKeepNothing(events: seq<Event>, opts: SummaryOptions, dirs: map<string, Value>)
    requires opts.commitsOnly && opts.notesOnly
    ensures Filtered(events, opts, dirs) == []
  {
    if events != [] {
      BothTypeFiltersKeepNothing(events[..|events| - 1], opts, dirs);
      assert GitCommit != Note;
    }
  }

  /**
   * With a hidden list configured, the hidden-only view and the default view split the events
   * the include-hidden view shows: each such event is in exactly one of the two.
   */
  lemma HiddenViewsPartition(e: Event, opts: SummaryOptions, dirs: map<string, Value>)
    requires |opts.hiddenDirs| > 0
    ensures var only := opts.(hiddenOnly := true);
      var def := opts.(hiddenOnly := false, includeHidden := false);
      var all := opts.(hiddenOnly := false, includeHidden := true);
      && (Keep(e, all, dirs) <==> Keep(e, only, dirs) || Keep(e, def, dirs))
      && !(Keep(e, only, dirs) && Keep(e, def, dirs))
  {
  }

  /** The filter loop of GetSummary. */
  method FilterEvents(events: seq<Event>, opts: SummaryOptions, dirs: map<string, Value>) returns (kept: seq<Event>)
    ensures kept == Filtered(events, opts, dirs)
  {
    kept := [];
    for i := 0 to |events|
      invariant kept == Filtered(events[..i], opts, dirs)
    {
      var e := events[i];
      assert events[..i + 1] == events[..i] + [e];
      if opts.commitsOnly && e.kind != GitCommit {
        continue;
      }
      if opts.notesOnly && e.kind != Note {
        continue;
      }
      if |opts.hiddenDirs| > 0 {
        var eventIsHidden := Hidden.IsHiddenDir(DirPath(e, dirs), opts.hiddenDirs);
        if opts.hiddenOnly {
          if !eventIsHidden {
            continue;
          }
        } else if !opts.includeHidden {
          if eventIsHidden {
            continue;
          }
        }
      }
      kept := kept + [e];
    }
    assert events[..|events|] == events;
  }

  // ---------------------------------------------------------------------------------------
  // Grouping
  // ---------------------------------------------------------------------------------------

  /** An event with the date and the heading the grouping loop computes for it. */
  datatype Entry = Entry(date: string, name: string, event: Event)

  /** An event with its "2006-01-02" date and its heading. */
  function EntryOf(e: Event, dirs: map<string, Value>, repos: map<string, Value>): (x: Entry)
    ensures x.event == e
  {
    Entry(DateString(e.ts), GroupName(e, dirs, repos), e)
  }

  /** f applied to each element, in order. */
  function Mapped<A, B>(s: seq<A>, f: A -> B): (r: seq<B>)
    ensures |r| == |s| && forall i | 0 <= i < |s| :: r[i] == f(s[i])
  {
    seq(|s|, i requires 0 <= i < |s| => f(s[i]))
  }

  lemma MappedStep<A, B>(s: seq<A>, i: int, f: A -> B)
    requires 0 <= i < |s|
    ensures Mapped(s[..i + 1], f) == Mapped(s[..i], f) + [f(s[i])]
  {
    var a, b := Mapped(s[..i + 1], f), Mapped(s[..i], f) + [f(s[i])];
    forall k | 0 <= k < |a| ensures a[k] == b[k] {
      if k < i {
        assert s[..i + 1][k] == s[..i][k];
      }
    }
  }

  /** The events with their dates and their headings. */
  function Entries(events: seq<Event>, dirs: map<string, Value>, repos: map<string, Value>): (r: seq<Entry>)
    ensures |r| == |events|
    ensures forall i | 0 <= i < |r| :: r[i] == EntryOf(events[i], dirs, repos)
  {
    Mapped(events, e => EntryOf(e, dirs, repos))
  }

  lemma EntriesStep(events: seq<Event>, i: int, dirs: map<string, Value>, repos: map<string, Value>)
    requires 0 <= i < |events|
    ensures Entries(events[..i + 1], dirs, repos) == Entries(events[..i], dirs, repos) + [EntryOf(events[i], dirs, repos)]
  {
    MappedStep(events, i, e => EntryOf(e, dirs, repos));
  }

  /** The position of the day group for date, or -1 when there is none yet. */
  function FindDate(groups: seq<DayDirGroup>, date: string): (k: int)
    ensures -1 <= k < |groups|
    ensures k >= 0 ==> groups[k].date == date && forall j | 0 <= j < k :: groups[j].date != date
    ensures k < 0 ==> forall j | 0 <= j < |groups| :: groups[j].date != date
  {
    if groups == [] then -1
    else if groups[0].date == date then 0
    else
      var k := FindDate(groups[1..], date);
      if k < 0 then -1 else k + 1
  }

  /** Files e under heading name in a day group, opening the heading at the end of the order when it is new. */
  function AddToGroup(g: DayDirGroup, name: string, e: Event): DayDirGroup
  {
    var g1 := if name in g.dirMap then g
      else g.(dirMap := g.dirMap[name := DirGroup(name, [])], dirOrder := g.dirOrder + [name]);
    g1.(dirMap := g1.dirMap[name := DirGroup(name, g1.dirMap[name].events + [e])])
  }

  /** One step of the grouping loop: the event goes to the group of its date (opened at the end when new), under its heading. */
  function AddEntry(groups: seq<DayDirGroup>, x: Entry): seq<DayDirGroup>
  {
    var k := FindDate(groups, x.date);
    if k < 0 then groups + [AddToGroup(DayDirGroup(x.date, map[], []), x.name, x.event)]
    else groups[k := AddToGroup(groups[k], x.name, x.event)]
  }

  /** The day groups the loop builds, before the headings are sorted. */
  function Grouped(xs: seq<Entry>): seq<DayDirGroup>
  {
    if xs == [] then [] else AddEntry(Grouped(xs[..|xs| - 1]), xs[|xs| - 1])
  }

  /** The events of date under heading name, in their order: the independent description of a group's contents. */
  function Select(xs: seq<Entry>, date: string, name: string): (r: seq<Event>)
    ensures |r| <= |xs|
  {
    if xs == [] then []
    else
      var last := xs[|xs| - 1];
      Select(xs[..|xs| - 1], date, name) + (if last.date == date && last.name == name then [last.event] else [])
  }

  lemma {:induction false} SelectMember(xs: seq<Entry>, date: string, name: string, e: Event)
    ensures e in Select(xs, date, name) <==> Entry(date, name, e) in xs
  {
    if xs != [] {
      SelectMember(xs[..|xs| - 1], date, name, e);
      assert xs == xs[..|xs| - 1] + [xs[|xs| - 1]];
    }
  }

  lemma {:induction false} SelectNone(xs: seq<Entry>, date: string, name: string)
    requires forall i | 0 <= i < |xs| :: xs[i].date != date
    ensures Select(xs, date, name) == []
  {
    if xs != [] {
      SelectNone(xs[..|xs| - 1], date, name);
    }
  }

  function Dates(groups: seq<DayDirGroup>): seq<string>
  {
    seq(|groups|, k requires 0 <= k < |groups| => groups[k].date)
  }

  function EntryDates(xs: seq<Entry>): seq<string>
  {
    seq(|xs|, i requires 0 <= i < |xs| => xs[i].date)
  }

  /** The distinct elements of s in the order of their first occurrence. */
  function Dedup(s: seq<string>): (r: seq<string>)
  {
    if s == [] then []
    else
      var front := Dedup(s[..|s| - 1]);
      front + (if s[|s| - 1] in front then [] else [s[|s| - 1]])
  }

  lemma {:induction false} DedupSpec(s: seq<string>)
    ensures forall x :: x in Dedup(s) <==> x in s
    ensures forall i, j | 0 <= i < j < |Dedup(s)| :: Dedup(s)[i] != Dedup(s)[j]
  {
    if s != [] {
      var init := s[..|s| - 1];
      DedupSpec(init);
      assert s == init + [s[|s| - 1]];
    }
  }

  /** What a day group holds, stated against the entries read so far. */
  ghost predicate GroupDescribes(g: DayDirGroup, xs: seq<Entry>)
  {
    && Sorting.Distinct(g.dirOrder)
    && (forall n :: n in g.dirOrder <==> n in g.dirMap)
    && (forall n | n in g.dirMap ::
          g.dirMap[n].name == n && g.dirMap[n].events == Select(xs, g.date, n) && g.dirMap[n].events != [])
    && (forall n | n !in g.dirMap :: Select(xs, g.date, n) == [])
  }

  /** The invariant of the grouping loop. */
  ghost predicate Describes(groups: seq<DayDirGroup>, xs: seq<Entry>)
  {
    && Dates(groups) == Dedup(EntryDates(xs))
    && forall k | 0 <= k < |groups| :: GroupDescribes(groups[k], xs)
  }

  lemma SelectSnoc(xs: seq<Entry>, x: Entry, date: string, name: string)
    ensures Select(xs + [x], date, name) ==
      Select(xs, date, name) + (if x.date == date && x.name == name then [x.event] else [])
  {
    assert (xs + [x])[..|xs|] == xs;
  }

  /** A group of another date is not affected by x. */
  lemma GroupDescribesOther(g: DayDirGroup, xs: seq<Entry>, x: Entry)
    requires GroupDescribes(g, xs)
    requires x.date != g.date
    ensures GroupDescribes(g, xs + [x])
  {
    forall n ensures Select(xs + [x], g.date, n) == Select(xs, g.date, n) {
      SelectSnoc(xs, x, g.date, n);
    }
  }

  /** A fresh group for a date no earlier entry has describes those entries. */
  lemma GroupDescribesFresh(date: string, xs: seq<Entry>)
    requires date !in EntryDates(xs)
    ensures GroupDescribes(DayDirGroup(date, map[], []), xs)
  {
    forall n ensures Select(xs, date, n) == [] {
      forall i | 0 <= i < |xs| ensures xs[i].date != date {
        assert EntryDates(xs)[i] == xs[i].date;
      }
      SelectNone(xs, date, n);
    }
  }

  /** Filing x in the group of its date keeps the group described. */
  lemma AddToGroupDescribes(g: DayDirGroup, xs: seq<Entry>, x: Entry)
    requires GroupDescribes(g, xs)
    requires x.date == g.date
    ensures GroupDescribes(AddToGroup(g, x.name, x.event), xs + [x])
  {
    var g' := AddToGroup(g, x.name, x.event);
    forall n ensures Select(xs + [x], g.date, n) == Select(xs, g.date, n) + (if n == x.name then [x.event] else []) {
      SelectSnoc(xs, x, g.date, n);
    }
    if x.name !in g.dirMap {
      assert x.name !in g.dirOrder;
      assert multiset(g'.dirOrder) == multiset(g.dirOrder) + multiset{x.name};
    }
  }

  lemma DedupSnoc(s: seq<string>, x: string)
    ensures Dedup(s + [x]) == Dedup(s) + (if x in Dedup(s) then [] else [x])
  {
    assert (s + [x])[..|s|] == s;
  }

  /** The days of a described grouping have distinct dates. */
  lemma DatesDistinct(groups: seq<DayDirGroup>, xs: seq<Entry>)
    requires Dates(groups) == Dedup(EntryDates(xs))
    ensures forall i, j | 0 <= i < j < |groups| :: groups[i].date != groups[j].date
  {
    DedupSpec(EntryDates(xs));
    forall i, j | 0 <= i < j < |groups| ensures groups[i].date != groups[j].date {
      assert Dates(groups)[i] == groups[i].date && Dates(groups)[j] == groups[j].date;
    }
  }

  /** The dates after a step: unchanged when the date has a group, else the new date at the end. */
  lemma AddEntryDates(groups: seq<DayDirGroup>, xs: seq<Entry>, x: Entry)
    requires Dates(groups) == Dedup(EntryDates(xs))
    ensures Dates(AddEntry(groups, x)) == Dedup(EntryDates(xs + [x]))
  {
    var k := FindDate(groups, x.date);
    assert EntryDates(xs + [x]) == EntryDates(xs) + [x.date];
    DedupSnoc(EntryDates(xs), x.date);
    if k < 0 {
      assert x.date !in Dates(groups);
      assert Dates(AddEntry(groups, x)) == Dates(groups) + [x.date];
    } else {
      assert Dates(groups)[k] == x.date;
      assert Dates(AddEntry(groups, x)) == Dates(groups);
    }
  }

  lemma AddEntryDescribes(groups: seq<DayDirGroup>, xs: seq<Entry>, x: Entry)
    requires Describes(groups, xs)
    ensures Describes(AddEntry(groups, x), xs + [x])
  {
    var k := FindDate(groups, x.date);
    var r := AddEntry(groups, x);
    AddEntryDates(groups, xs, x);
    DatesDistinct(groups, xs);
    if k < 0 {
      assert x.date !in EntryDates(xs) by {
        DedupSpec(EntryDates(xs));
        assert x.date !in Dates(groups);
      }
      GroupDescribesFresh(x.date, xs);
      AddToGroupDescribes(DayDirGroup(x.date, map[], []), xs, x);
      forall j | 0 <= j < |r| ensures GroupDescribes(r[j], xs + [x]) {
        if j < |groups| {
          GroupDescribesOther(groups[j], xs, x);
        }
      }
    } else {
      AddToGroupDescribes(groups[k], xs, x);
      forall j | 0 <= j < |r| ensures GroupDescribes(r[j], xs + [x]) {
        if j != k {
          GroupDescribesOther(groups[j], xs, x);
        }
      }
    }
  }

  lemma {:induction false} GroupedDescribes(xs: seq<Entry>)
    ensures Describes(Grouped(xs), xs)
  {
    if xs == [] {
      assert Dates([]) == [];
    } else {
      var init := xs[..|xs| - 1];
      var last := xs[|xs| - 1];
      GroupedDescribes(init);
      AddEntryDescribes(Grouped(init), init, last);
      GroupedSnoc(init, last);
      assert init + [last] == xs;
    }
  }

  /** index maps each date that has a group to that group's position, and nothing else. */
  predicate Indexed(groups: seq<DayDirGroup>, index: map<string, int>)
  {
    && (forall d | d in index :: 0 <= index[d] < |groups| && groups[index[d]].date == d)
    && (forall j | 0 <= j < |groups| :: groups[j].date in index && index[groups[j].date] == j)
  }

  /** With such a map, the map finds what FindDate finds. */
  lemma FindDateIndexed(groups: seq<DayDirGroup>, index: map<string, int>, d: string)
    requires Indexed(groups, index)
    ensures FindDate(groups, d) == if d in index then index[d] else -1
  {
  }

  lemma IndexedAppend(groups: seq<DayDirGroup>, index: map<string, int>, d: string)
    requires Indexed(groups, index) && d !in index
    ensures Indexed(groups + [DayDirGroup(d, map[], [])], index[d := |groups|])
  {
  }

  lemma IndexedUpdate(groups: seq<DayDirGroup>, index: map<string, int>, k: int, g: DayDirGroup)
    requires Indexed(groups, index) && 0 <= k < |groups| && g.date == groups[k].date
    ensures Indexed(groups[k := g], index)
  {
  }

  lemma GroupedSnoc(xs: seq<Entry>, x: Entry)
    ensures Grouped(xs + [x]) == AddEntry(Grouped(xs), x)
  {
    assert (xs + [x])[..|xs|] == xs;
  }

  /** One step of the grouping loop, stated on the position the date-to-group map gives. */
  lemma GroupStep(before: seq<DayDirGroup>, index: map<string, int>, x: Entry)
    requires Indexed(before, index)
    ensures var grown := if x.date in index then before else before + [DayDirGroup(x.date, map[], [])];
      var index' := if x.date in index then index else index[x.date := |before|];
      && x.date in index' && 0 <= index'[x.date] < |grown|
      && AddEntry(before, x) == grown[index'[x.date] := AddToGroup(grown[index'[x.date]], x.name, x.event)]
      && Indexed(AddEntry(before, x), index')
  {
    FindDateIndexed(before, index, x.date);
    if x.date in index {
      IndexedUpdate(before, index, index[x.date], AddToGroup(before[index[x.date]], x.name, x.event));
    } else {
      IndexedAppend(before, index, x.date);
      var grown := before + [DayDirGroup(x.date, map[], [])];
      IndexedUpdate(grown, index[x.date := |before|], |before|, AddToGroup(grown[|before|], x.name, x.event));
    }
  }

  /** The body of the grouping loop: the event is filed through the date-to-group map. */
  method FileEvent(groups: seq<DayDirGroup>, dayGroupMap: map<string, int>, dateStr: string, dirName: string, e: Event)
    returns (groups': seq<DayDirGroup>, dayGroupMap': map<string, int>)
    requires Indexed(groups, dayGroupMap)
    ensures groups' == AddEntry(groups, Entry(dateStr, dirName, e)) && Indexed(groups', dayGroupMap')
  {
    GroupStep(groups, dayGroupMap, Entry(dateStr, dirName, e));
    groups', dayGroupMap' := groups, dayGroupMap;
    if dateStr !in dayGroupMap' {
      groups' := groups' + [DayDirGroup(dateStr, map[], [])];
      dayGroupMap' := dayGroupMap'[dateStr := |groups'| - 1];
    }
    var k := dayGroupMap'[dateStr];
    var dayGroup := groups'[k];
    if dirName !in dayGroup.dirMap {
      dayGroup := dayGroup.(dirMap := dayGroup.dirMap[dirName := DirGroup(dirName, [])], dirOrder := dayGroup.dirOrder + [dirName]);
    }
    dayGroup := dayGroup.(dirMap := dayGroup.dirMap[dirName := DirGroup(dirName, dayGroup.dirMap[dirName].events + [e])]);
    groups' := groups'[k := dayGroup];
  }

  /** The grouping loop of GetSummary, with the date-to-group map of the source. */
  method GroupByDay(events: seq<Event>, dirs: map<string, Value>, repos: map<string, Value>) returns (groups: seq<DayDirGroup>)
    ensures groups == Grouped(Entries(events, dirs, repos))
  {
    groups := [];
    var dayGroupMap: map<string, int> := map[];
    ghost var xs: seq<Entry> := [];
    for i := 0 to |events|
      invariant xs == Entries(events[..i], dirs, repos)
      invariant groups == Grouped(xs)
      invariant Indexed(groups, dayGroupMap)
    {
      var e := events[i];
      var dateStr := DateString(e.ts);
      var dirName := GroupName(e, dirs, repos);
      ghost var x := Entry(dateStr, dirName, e);
      assert x == EntryOf(e, dirs, repos);
      GroupedSnoc(xs, x);
      EntriesStep(events, i, dirs, repos);
      groups, dayGroupMap := FileEvent(groups, dayGroupMap, dateStr, dirName, e);
      xs := xs + [x];
    }
    assert events[..|events|] == events;
  }

  /** Every day's headings in ascending order; nothing else changes. */
  function SortedOrders(groups: seq<DayDirGroup>): (r: seq<DayDirGroup>)
    ensures |r| == |groups|
  {
    seq(|groups|, k requires 0 <= k < |groups| => groups[k].(dirOrder := Sorting.SortStrings(groups[k].dirOrder)))
  }

  /** The sort loop of GetSummary: each day's heading order is sorted in place. */
  method SortDirOrders(groups: seq<DayDirGroup>) returns (r: seq<DayDirGroup>)
    ensures r == SortedOrders(groups)
  {
    r := groups;
    for k := 0 to |r|
      invariant |r| == |groups|
      invariant forall j | 0 <= j < k :: r[j] == SortedOrders(groups)[j]
      invariant forall j | k <= j < |r| :: r[j] == groups[j]
    {
      r := r[k := r[k].(dirOrder := Sorting.SortStrings(r[k].dirOrder))];
    }
  }

  // ---------------------------------------------------------------------------------------
  // The grouping loop as written: stale day-group addresses
  // ---------------------------------------------------------------------------------------

  /**
   * The grouping loop as the source runs it. The date-to-group map holds addresses into the
   * backing array of the day-group slice; appending a day group to a full slice moves the
   * groups to a new array (capacity 1, then doubling up to 512 groups), and the addresses taken before still
   * point into the old one. A day group reached through such a stale address still shares its
   * heading map with the live copy, but a heading appended to its order is appended to the
   * old copy only, so the shown order never gets it. `stale` holds the positions whose address
   * is stale.
   */
  datatype AliasedGroups = AliasedGroups(groups: seq<DayDirGroup>, cap: nat, stale: set<int>)

  /** Filing an event through a stale address: the shared heading map is updated, the shown order is not. */
  function AddThroughStale(g: DayDirGroup, name: string, e: Event): DayDirGroup
  {
    var g1 := if name in g.dirMap then g else g.(dirMap := g.dirMap[name := DirGroup(name, [])]);
    g1.(dirMap := g1.dirMap[name := DirGroup(name, g1.dirMap[name].events + [e])])
  }

  /** The positions 0 to n - 1. */
  function Positions(n: nat): (r: set<int>)
    ensures forall j :: j in r <==> 0 <= j < n
  {
    if n == 0 then {} else Positions(n - 1) + {n - 1}
  }

  function AddEntryAsWritten(st: AliasedGroups, x: Entry): AliasedGroups
  {
    var k := FindDate(st.groups, x.date);
    if k < 0 then
      var full := |st.groups| == st.cap;
      var stale := if full then Positions(|st.groups|) else st.stale;
      var cap := if !full then st.cap else if st.cap == 0 then 1 else 2 * st.cap;
      AliasedGroups(st.groups + [AddToGroup(DayDirGroup(x.date, map[], []), x.name, x.event)], cap, stale)
    else if k in st.stale then
      st.(groups := st.groups[k := AddThroughStale(st.groups[k], x.name, x.event)])
    else
      st.(groups := st.groups[k := AddToGroup(st.groups[k], x.name, x.event)])
  }

  function GroupedAsWritten(xs: seq<Entry>): AliasedGroups
  {
    if xs == [] then AliasedGroups([], 0, {})
    else AddEntryAsWritten(GroupedAsWritten(xs[..|xs| - 1]), xs[|xs| - 1])
  }

  /**
   * The heading of an event whose date came back after another date loses its place in the
   * order as written: with a, b, c read in that order, a and c on one day and b on another, the
   * heading of c is in the first day's map but not in its order, so it is never shown; the
   * grouping of the model lists it.
   */
  lemma LostHeading(a: Entry, b: Entry, c: Entry)
    requires a.date == c.date && a.date != b.date && a.name != c.name
    ensures var g := GroupedAsWritten([a, b, c]).groups;
      |g| == 2 && c.name in g[0].dirMap && c.name !in g[0].dirOrder
    ensures var g := Grouped([a, b, c]);
      |g| == 2 && c.name in g[0].dirMap && c.name in g[0].dirOrder
  {
    assert [a, b, c][..2] == [a, b] && [a, b][..1] == [a] && [a][..0] == [];
    var ga := AddToGroup(DayDirGroup(a.date, map[], []), a.name, a.event);
    var gb := AddToGroup(DayDirGroup(b.date, map[], []), b.name, b.event);
    assert ga.dirOrder == [a.name];
    var st1 := AliasedGroups([ga], 1, {});
    assert GroupedAsWritten([a]) == st1;
    var st2 := AliasedGroups([ga, gb], 2, {0});
    assert GroupedAsWritten([a, b]) == st2 by {
      assert FindDate([ga], b.date) == -1;
    }
    assert FindDate([ga, gb], c.date) == 0;
    assert GroupedAsWritten([a, b, c]).groups == [AddThroughStale(ga, c.name, c.event), gb];
    assert Grouped([a]) == [ga];
    assert Grouped([a, b]) == [ga, gb];
    assert Grouped([a, b, c]) == [AddToGroup(ga, c.name, c.event), gb];
  }

  /** No date comes back after another date has been read. */
  predicate Contiguous(xs: seq<Entry>)
  {
    forall i, j, l | 0 <= i < j < l < |xs| && xs[i].date == xs[l].date :: xs[j].date == xs[i].date
  }

  /**
   * When each date's events are read together, as a scan of a shard written in time order
   * reads them, the loop as written builds exactly the model's grouping.
   */
  lemma ContiguousAsWritten(xs: seq<Entry>)
    requires Contiguous(xs)
    ensures GroupedAsWritten(xs).groups == Grouped(xs)
  {
    AsWrittenInvariant(xs);
  }

  lemma {:induction false} AsWrittenInvariant(xs: seq<Entry>)
    requires Contiguous(xs)
    ensures var st := GroupedAsWritten(xs);
      && st.groups == Grouped(xs)
      && (forall j | j in st.stale :: 0 <= j < |st.groups| - 1)
      && (xs != [] ==> |st.groups| > 0 && st.groups[|st.groups| - 1].date == xs[|xs| - 1].date)
  {
    if xs != [] {
      var init := xs[..|xs| - 1];
      var x := xs[|xs| - 1];
      ContiguousPrefix(xs);
      AsWrittenInvariant(init);
      FoundIsLast(xs);
      AsWrittenStep(GroupedAsWritten(init), x);
    }
  }

  lemma ContiguousPrefix(xs: seq<Entry>)
    requires Contiguous(xs) && xs != []
    ensures Contiguous(xs[..|xs| - 1])
  {
    var init := xs[..|xs| - 1];
    forall i, j, l | 0 <= i < j < l < |init| && init[i].date == init[l].date ensures init[j].date == init[i].date {
      assert init[i] == xs[i] && init[j] == xs[j] && init[l] == xs[l];
    }
  }

  /** Under contiguity, an event whose date already has a group belongs to the last group. */
  lemma FoundIsLast(xs: seq<Entry>)
    requires Contiguous(xs) && xs != []
    requires var init := xs[..|xs| - 1];
      init != [] ==> |Grouped(init)| > 0 && Grouped(init)[|Grouped(init)| - 1].date == init[|init| - 1].date
    ensures var g := Grouped(xs[..|xs| - 1]); var k := FindDate(g, xs[|xs| - 1].date); k < 0 || k == |g| - 1
  {
    var init := xs[..|xs| - 1];
    var x := xs[|xs| - 1];
    var g := Grouped(init);
    var k := FindDate(g, x.date);
    if k >= 0 {
      GroupedDates(init);
      DedupSpec(EntryDates(init));
      assert Dates(g)[k] == x.date;
      ReturningDate(xs);
      DatesDistinct(g, init);
    }
  }

  lemma GroupedDates(xs: seq<Entry>)
    ensures Dates(Grouped(xs)) == Dedup(EntryDates(xs))
  {
    GroupedDescribes(xs);
  }

  /** Under contiguity, a date read before is the date of the entry read last. */
  lemma ReturningDate(xs: seq<Entry>)
    requires Contiguous(xs) && xs != []
    requires xs[|xs| - 1].date in EntryDates(xs[..|xs| - 1])
    ensures |xs| > 1 && xs[|xs| - 2].date == xs[|xs| - 1].date
  {
    var init := xs[..|xs| - 1];
    var i :| 0 <= i < |init| && EntryDates(init)[i] == xs[|xs| - 1].date;
    assert xs[i] == init[i];
  }

  /** A step that never reaches a stale group does what the model's step does. */
  lemma AsWrittenStep(st: AliasedGroups, x: Entry)
    requires forall j | j in st.stale :: 0 <= j < |st.groups| - 1
    requires var k := FindDate(st.groups, x.date); k < 0 || k == |st.groups| - 1
    ensures var r := AddEntryAsWritten(st, x);
      && r.groups == AddEntry(st.groups, x)
      && (forall j | j in r.stale :: 0 <= j < |r.groups| - 1)
      && |r.groups| > 0 && r.groups[|r.groups| - 1].date == x.date
  {
  }

  // ---------------------------------------------------------------------------------------
  // The use case
  // ---------------------------------------------------------------------------------------

  /** The summary of the events read for the range: nothing when the filters keep nothing. */
  function Summarize(opts: SummaryOptions, now: int, events: seq<Event>, dirs: map<string, Value>, repos: map<string, Value>): SummaryResult
  {
    var range := SummaryRange(opts, now);
    var kept := Filtered(events, opts, dirs);
    SummaryResult(range.0, range.1, if kept == [] then [] else SortedOrders(Grouped(Entries(kept, dirs, repos))))
  }

  /** The shown groups of entries xs: the grouping of xs with each day's headings sorted. */
  ghost predicate Shows(days: seq<DayDirGroup>, xs: seq<Entry>)
  {
    && (days == [] <==> xs == [])
    && Dates(days) == Dedup(EntryDates(xs))
    && (forall k, n | 0 <= k < |days| && n in days[k].dirMap ::
          days[k].dirMap[n].name == n && days[k].dirMap[n].events == Select(xs, days[k].date, n))
    && (forall k, n | 0 <= k < |days| && n !in days[k].dirMap :: Select(xs, days[k].date, n) == [])
    && (forall k | 0 <= k < |days| ::
          && Sorting.Sorted(days[k].dirOrder)
          && Sorting.Distinct(days[k].dirOrder)
          && (forall n :: n in days[k].dirOrder <==> n in days[k].dirMap))
  }

  lemma SortedGroupsShow(xs: seq<Entry>)
    ensures Shows(SortedOrders(Grouped(xs)), xs)
  {
    var g := Grouped(xs);
    var s := SortedOrders(g);
    GroupedDescribes(xs);
    DedupSpec(EntryDates(xs));
    if xs != [] {
      assert EntryDates(xs)[0] in Dedup(EntryDates(xs));
    }
    assert Dates(s) == Dates(g);
    forall k | 0 <= k < |s|
      ensures Sorting.Sorted(s[k].dirOrder)
      ensures Sorting.Distinct(s[k].dirOrder)
      ensures forall n :: n in s[k].dirOrder <==> n in s[k].dirMap
    {
      assert GroupDescribes(g[k], xs);
      Sorting.SortStringsSpec(g[k].dirOrder);
      Sorting.SortStringsDistinct(g[k].dirOrder);
    }
  }

  /**
   * What a summary shows. Each group holds exactly the kept events of its date and heading, in
   * reading order; the days appear once each, in the order their first event was read; each
   * day's headings are exactly its groups, sorted, each once; and there are no days exactly
   * when no event is kept.
   */
  lemma SummarizeSpec(opts: SummaryOptions, now: int, events: seq<Event>, dirs: map<string, Value>, repos: map<string, Value>)
    ensures Shows(Summarize(opts, now, events, dirs, repos).dayGroups, Entries(Filtered(events, opts, dirs), dirs, repos))
  {
    var xs := Entries(Filtered(events, opts, dirs), dirs, repos);
    SortedGroupsShow(xs);
    if xs == [] {
      assert Dates([]) == [] == Dedup(EntryDates(xs));
    }
  }

  /** Some day of date lists heading name, and e is among that heading's events. */
  predicate ShownAt(days: seq<DayDirGroup>, date: string, name: string, e: Event)
  {
    exists k | 0 <= k < |days| ::
      days[k].date == date && name in days[k].dirOrder && name in days[k].dirMap && e in days[k].dirMap[name].events
  }

  /** Every kept event is shown under its own date and heading, and that heading is listed. */
  lemma EveryEventShown(opts: SummaryOptions, now: int, events: seq<Event>, dirs: map<string, Value>, repos: map<string, Value>, i: int)
    requires 0 <= i < |events| && Keep(events[i], opts, dirs)
    ensures ShownAt(Summarize(opts, now, events, dirs, repos).dayGroups,
      DateString(events[i].ts), GroupName(events[i], dirs, repos), events[i])
  {
    var e := events[i];
    var kept := Filtered(events, opts, dirs);
    var xs := Entries(kept, dirs, repos);
    SummarizeSpec(opts, now, events, dirs, repos);
    FilteredMember(events, opts, dirs, e);
    var j :| 0 <= j < |kept| && kept[j] == e;
    EntryShown(Summarize(opts, now, events, dirs, repos).dayGroups, xs, j);
  }

  lemma EntryShown(days: seq<DayDirGroup>, xs: seq<Entry>, j: int)
    requires Shows(days, xs) && 0 <= j < |xs|
    ensures ShownAt(days, xs[j].date, xs[j].name, xs[j].event)
  {
    var x := xs[j];
    DedupSpec(EntryDates(xs));
    assert EntryDates(xs)[j] == x.date;
    assert x.date in Dates(days);
    var k :| 0 <= k < |days| && Dates(days)[k] == x.date;
    SelectMember(xs, x.date, x.name, x.event);
    assert x.event in Select(xs, x.date, x.name);
    assert x.name in days[k].dirMap;
  }

  /** The dictionary a command reads: the stored one, or the empty map when its file does not decode. */
  function DictOrEmpty(store: FileStore, name: string): map<string, Value>
    reads store
  {
    if name in store.dicts && name in store.corruptDicts then map[] else DictOf(store.dicts, name)
  }

  /**
   * GetSummary: a scan error is returned as it is; otherwise the summary of the scanned events,
   * with "dirs" and "repos" read as empty when they do not decode.
   */
  method GetSummary(store: FileStore, opts: SummaryOptions, now: int) returns (r: Result<SummaryResult, StoreError>)
    ensures var range := SummaryRange(opts, now);
      r.Err? <==> exists m | MonthKey(range.0) <= m <= MonthKey(range.1) && m in store.shards :: m in store.corrupt
    ensures var range := SummaryRange(opts, now);
      r.Ok? ==> r.value == Summarize(opts, now,
        Gather(store.shards, MonthKey(range.0), MonthKey(range.1), range.0, range.1),
        DictOrEmpty(store, "dirs"), DictOrEmpty(store, "repos"))
  {
    var range := SummaryRange(opts, now);
    var start, end := range.0, range.1;
    var read := store.GetEvents(start, end);
    if read.Err? {
      return Err(read.error);
    }
    var dirsDict := store.LoadDict("dirs");
    var dirs := if dirsDict.Ok? then dirsDict.value else map[];
    var reposDict := store.LoadDict("repos");
    var repos := if reposDict.Ok? then reposDict.value else map[];
    var events := FilterEvents(read.value, opts, dirs);
    if |events| == 0 {
      return Ok(SummaryResult(start, end, []));
    }
    var dayGroups := GroupByDay(events, dirs, repos);
    dayGroups := SortDirOrders(dayGroups);
    return Ok(SummaryResult(start, end, dayGroups));
  }
}
