/**
 * The export renderer of the summary: the Markdown or plain-text document built from a
 * summary result. Writing the document out is not modelled; the method returns the text.
 *
 * The renderer's own event formatters are the same text as Format.FormatEventForSummary and
 * Format.FormatEventPlain and are modelled there.
 */
module Renderer {
  import opened Text
  import opened Clock
  import opened Model
  import opened Format
  import opened Summary

  /** Every heading a day lists has a group: the renderer looks each one up and reads its name. */
  predicate Renderable(r: SummaryResult)
  {
    forall k, n | 0 <= k < |r.dayGroups| && n in r.dayGroups[k].dirOrder :: n in r.dayGroups[k].dirMap
  }

  function Header(start: int, end: int, md: bool): string
  {
    var from := DateString(start);
    var to := DateString(end);
    if md then "# Activities (" + from + " - " + to + ")\n\n" else "Activities (" + from + " - " + to + ")\n\n"
  }

  function DayHeading(date: string, md: bool): string
  {
    if md then "\n## " + date + "\n\n" else "\n[" + date + "]\n"
  }

  function DirHeading(name: string, md: bool): string
  {
    if md then "### " + name + "\n\n" else "\n" + name + "\n"
  }

  /** One event: its clock time and its plain rendering. */
  function EventLine(e: Event, md: bool): string
  {
    var content := FormatEventPlain(e);
    if md then "- **" + ClockString(e.ts) + "**: " + content + "\n" else "- " + ClockString(e.ts) + " " + content + "\n"
  }

  function EventLines(es: seq<Event>, md: bool): string
  {
    if es == [] then [] else EventLines(es[..|es| - 1], md) + EventLine(es[|es| - 1], md)
  }

  /** One heading: its title, its events in their order, then a blank line. */
  function DirBlock(g: DirGroup, md: bool): string
  {
    DirHeading(g.name, md) + EventLines(g.events, md) + "\n"
  }

  /**
   * The headings' blocks in the order given. A heading missing from the map never reaches this
   * in a renderable result (the renderer would dereference a nil group); it contributes nothing.
   */
  function DirBlocks(order: seq<string>, dirMap: map<string, DirGroup>, md: bool): string
  {
    if order == [] then []
    else
      var n := order[|order| - 1];
      DirBlocks(order[..|order| - 1], dirMap, md) + (if n in dirMap then DirBlock(dirMap[n], md) else [])
  }

  function DayBlock(d: DayDirGroup, md: bool): string
  {
    DayHeading(d.date, md) + DirBlocks(d.dirOrder, d.dirMap, md)
  }

  function DayBlocks(days: seq<DayDirGroup>, md: bool): string
  {
    if days == [] then []
    else DayBlocks(days[..|days| - 1], md) + DayBlock(days[|days| - 1], md)
  }

  /** The whole document: the header, then the days in their order. */
  function Export(r: SummaryResult, md: bool): string
  {
    Header(r.start, r.end, md) + DayBlocks(r.dayGroups, md)
  }

  lemma EventLinesStep(es: seq<Event>, i: int, md: bool)
    requires 0 <= i < |es|
    ensures EventLines(es[..i + 1], md) == EventLines(es[..i], md) + EventLine(es[i], md)
  {
    assert es[..i + 1][..i] == es[..i];
  }

  lemma DirBlocksStep(order: seq<string>, dirMap: map<string, DirGroup>, j: int, md: bool)
    requires 0 <= j < |order| && order[j] in dirMap
    ensures DirBlocks(order[..j + 1], dirMap, md) == DirBlocks(order[..j], dirMap, md) + DirBlock(dirMap[order[j]], md)
  {
    assert order[..j + 1][..j] == order[..j];
  }

  lemma DayBlocksStep(days: seq<DayDirGroup>, k: int, md: bool)
    requires 0 <= k < |days|
    ensures DayBlocks(days[..k + 1], md) == DayBlocks(days[..k], md) + DayBlock(days[k], md)
  {
    assert days[..k + 1][..k] == days[..k];
  }

  lemma PrefixWhole<T>(s: seq<T>, j: int)
    requires j == |s|
    ensures s[..j] == s
  {
  }

  lemma Assoc(a: string, b: string, c: string)
    ensures (a + b) + c == a + (b + c)
  {
  }

  /** RenderExport: format "md" gives Markdown, any other format plain text. */
  method RenderExport(result: SummaryResult, format: string) returns (output: string)
    requires Renderable(result)
    ensures output == Export(result, format == "md")
  {
    var md := format == "md";
    var from := DateString(result.start);
    var to := DateString(result.end);
    if format == "md" {
      output := "# Activities (" + from + " - " + to + ")\n\n";
    } else {
      output := "Activities (" + from + " - " + to + ")\n\n";
    }
    var header := output;
    var days := result.dayGroups;
    var k := 0;
    while k < |days|
      invariant 0 <= k <= |days|
      invariant output == header + DayBlocks(days[..k], md)
    {
      var dg := days[k];
      var dayTitle;
      if format == "md" {
        dayTitle := "\n## " + dg.date + "\n\n";
      } else {
        dayTitle := "\n[" + dg.date + "]\n";
      }
      var dirs := DirsText(dg, md);
      assert dayTitle + dirs == DayBlock(dg, md);
      DayBlocksStep(days, k, md);
      Assoc(header, DayBlocks(days[..k], md), DayBlock(dg, md));
      output := output + (dayTitle + dirs);
      k := k + 1;
    }
    PrefixWhole(days, k);
  }

  /** The inner loops of RenderExport: one day's headings, each with its events. */
  method DirsText(dg: DayDirGroup, md: bool) returns (output: string)
    requires forall n | n in dg.dirOrder :: n in dg.dirMap
    ensures output == DirBlocks(dg.dirOrder, dg.dirMap, md)
  {
    output := [];
    var j := 0;
    while j < |dg.dirOrder|
      invariant 0 <= j <= |dg.dirOrder|
      invariant output == DirBlocks(dg.dirOrder[..j], dg.dirMap, md)
    {
      var dirGroup := dg.dirMap[dg.dirOrder[j]];
      var title;
      if md {
        title := "### " + dirGroup.name + "\n\n";
      } else {
        title := "\n" + dirGroup.name + "\n";
      }
      var lines := EventsText(dirGroup.events, md);
      assert title + lines + "\n" == DirBlock(dirGroup, md);
      DirBlocksStep(dg.dirOrder, dg.dirMap, j, md);
      output := output + (title + lines + "\n");
      j := j + 1;
    }
    PrefixWhole(dg.dirOrder, j);
  }

  /** The innermost loop of RenderExport: one heading's event lines. */
  method EventsText(events: seq<Event>, md: bool) returns (lines: string)
    ensures lines == EventLines(events, md)
  {
    lines := [];
    var i := 0;
    while i < |events|
      invariant 0 <= i <= |events|
      invariant lines == EventLines(events[..i], md)
    {
      var e := events[i];
      var timeStr := ClockString(e.ts);
      var content := FormatEventPlain(e);
      var line;
      if md {
        line := "- **" + timeStr + "**: " + content + "\n";
      } else {
        line := "- " + timeStr + " " + content + "\n";
      }
      assert line == EventLine(e, md);
      EventLinesStep(events, i, md);
      lines := lines + line;
      i := i + 1;
    }
    PrefixWhole(events, i);
  }

  // ---------------------------------------------------------------------------------------
  // What the document shows
  // ---------------------------------------------------------------------------------------

  lemma {:induction false} EventLinesShow(es: seq<Event>, e: Event, md: bool)
    requires e in es
    ensures Contains(EventLines(es, md), EventLine(e, md))
  {
    var init := es[..|es| - 1];
    ContainsItself(EventLine(e, md));
    if es[|es| - 1] == e {
      ContainsRight(EventLines(init, md), EventLine(e, md), EventLine(e, md));
    } else {
      assert e in init by {
        assert es == init + [es[|es| - 1]];
      }
      EventLinesShow(init, e, md);
      ContainsLeft(EventLines(init, md), EventLine(es[|es| - 1], md), EventLine(e, md));
    }
  }

  /** What a listed heading's block shows, the day's text shows. */
  lemma {:induction false} DirBlocksShow(order: seq<string>, dirMap: map<string, DirGroup>, n: string, md: bool, sub: string)
    requires n in order && n in dirMap && Contains(DirBlock(dirMap[n], md), sub)
    ensures Contains(DirBlocks(order, dirMap, md), sub)
  {
    var init := order[..|order| - 1];
    var last := order[|order| - 1];
    var lastBlock := if last in dirMap then DirBlock(dirMap[last], md) else [];
    assert DirBlocks(order, dirMap, md) == DirBlocks(init, dirMap, md) + lastBlock;
    if last == n {
      ContainsRight(DirBlocks(init, dirMap, md), lastBlock, sub);
    } else {
      InFront(order, n);
      DirBlocksShow(init, dirMap, n, md, sub);
      ContainsLeft(DirBlocks(init, dirMap, md), lastBlock, sub);
    }
  }

  lemma InFront<T>(s: seq<T>, x: T)
    requires x in s && x != s[|s| - 1]
    ensures x in s[..|s| - 1]
  {
    var i :| 0 <= i < |s| && s[i] == x;
    assert s[..|s| - 1][i] == x;
  }

  /** What a day's block shows, the days' text shows. */
  lemma {:induction false} DayBlocksShow(days: seq<DayDirGroup>, k: int, md: bool, sub: string)
    requires 0 <= k < |days| && Contains(DayBlock(days[k], md), sub)
    ensures Contains(DayBlocks(days, md), sub)
  {
    var init := days[..|days| - 1];
    if k == |days| - 1 {
      ContainsRight(DayBlocks(init, md), DayBlock(days[k], md), sub);
    } else {
      assert init[k] == days[k];
      DayBlocksShow(init, k, md, sub);
      ContainsLeft(DayBlocks(init, md), DayBlock(days[|days| - 1], md), sub);
    }
  }

  /**
   * An event filed under a listed heading of a day is exported: the document holds the day's
   * heading and the event's line, and the heading's title when groups are keyed by their names.
   */
  lemma ExportShows(r: SummaryResult, md: bool, date: string, name: string, e: Event)
    requires ShownAt(r.dayGroups, date, name, e)
    ensures Contains(Export(r, md), DayHeading(date, md))
    ensures Contains(Export(r, md), EventLine(e, md))
    ensures KeyedByName(r) ==> Contains(Export(r, md), DirHeading(name, md))
  {
    var k :| 0 <= k < |r.dayGroups| && r.dayGroups[k].date == date && name in r.dayGroups[k].dirOrder
      && name in r.dayGroups[k].dirMap && e in r.dayGroups[k].dirMap[name].events;
    var d := r.dayGroups[k];
    var g := d.dirMap[name];
    var head := Header(r.start, r.end, md);
    // the day heading
    ContainsItself(DayHeading(date, md));
    ContainsLeft(DayHeading(date, md), DirBlocks(d.dirOrder, d.dirMap, md), DayHeading(date, md));
    DayBlocksShow(r.dayGroups, k, md, DayHeading(date, md));
    ContainsRight(head, DayBlocks(r.dayGroups, md), DayHeading(date, md));
    // the directory heading and the event line, inside the directory's block
    ShowsInDirBlock(g, md, e);
    DirBlocksShow(d.dirOrder, d.dirMap, name, md, DirHeading(g.name, md));
    DirBlocksShow(d.dirOrder, d.dirMap, name, md, EventLine(e, md));
    ContainsRight(DayHeading(date, md), DirBlocks(d.dirOrder, d.dirMap, md), DirHeading(g.name, md));
    ContainsRight(DayHeading(date, md), DirBlocks(d.dirOrder, d.dirMap, md), EventLine(e, md));
    DayBlocksShow(r.dayGroups, k, md, DirHeading(g.name, md));
    DayBlocksShow(r.dayGroups, k, md, EventLine(e, md));
    ContainsRight(head, DayBlocks(r.dayGroups, md), DirHeading(g.name, md));
    ContainsRight(head, DayBlocks(r.dayGroups, md), EventLine(e, md));
  }

  /** Each group sits under its own name in its day's map. */
  predicate KeyedByName(r: SummaryResult)
  {
    forall k, n | 0 <= k < |r.dayGroups| && n in r.dayGroups[k].dirMap :: r.dayGroups[k].dirMap[n].name == n
  }

  lemma ShowsInDirBlock(g: DirGroup, md: bool, e: Event)
    requires e in g.events
    ensures Contains(DirBlock(g, md), DirHeading(g.name, md))
    ensures Contains(DirBlock(g, md), EventLine(e, md))
  {
    var h := DirHeading(g.name, md);
    var lines := EventLines(g.events, md);
    ContainsItself(h);
    ContainsLeft(h, lines, h);
    ContainsLeft(h + lines, "\n", h);
    EventLinesShow(g.events, e, md);
    ContainsRight(h, lines, EventLine(e, md));
    ContainsLeft(h + lines, "\n", EventLine(e, md));
  }

  /** A summary result is renderable, and each group sits under its own name. */
  lemma SummaryRenderable(opts: SummaryOptions, now: int, events: seq<Event>, dirs: map<string, Value>, repos: map<string, Value>)
    ensures Renderable(Summarize(opts, now, events, dirs, repos))
    ensures KeyedByName(Summarize(opts, now, events, dirs, repos))
  {
    SummarizeSpec(opts, now, events, dirs, repos);
  }

  /**
   * Every event the summary keeps is exported under its date and its heading: the document
   * holds the day's heading, the heading's title and the event's line.
   */
  lemma EveryEventExported(opts: SummaryOptions, now: int, events: seq<Event>, dirs: map<string, Value>, repos: map<string, Value>, i: int, md: bool)
    requires 0 <= i < |events| && Keep(events[i], opts, dirs)
    ensures var doc := Export(Summarize(opts, now, events, dirs, repos), md);
      && Contains(doc, DayHeading(DateString(events[i].ts), md))
      && Contains(doc, DirHeading(GroupName(events[i], dirs, repos), md))
      && Contains(doc, EventLine(events[i], md))
  {
    SummaryRenderable(opts, now, events, dirs, repos);
    EveryEventShown(opts, now, events, dirs, repos, i);
    ExportShows(Summarize(opts, now, events, dirs, repos), md, DateString(events[i].ts), GroupName(events[i], dirs, repos), events[i]);
  }
}
