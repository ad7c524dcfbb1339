/**
 * The search command: events in a time window are filtered by type, by a case-insensitive
 * substring of their content and by "#tag" references, and the matches are sorted oldest first.
 * Parsing of the date flags arrives as its outcome; lowercasing is ASCII-only.
 */
module Search {
  import opened Wrappers
  import opened Text
  import opened Clock
  import opened Model
  import opened Store

  /** The filter flags: the query text ("" matches everything), the tags, the event type. */
  datatype Query = Query(text: string, tags: seq<string>, eventType: string)

  /** "note" keeps notes, "commit" keeps commits; any other type, "" included, keeps everything. */
  predicate TypeKept(eventType: string, e: Event)
  {
    (eventType == "note" ==> e.kind == Note) && (eventType == "commit" ==> e.kind == GitCommit)
  }

  /** The content contains the query, both lowercased. */
  predicate TextKept(text: string, e: Event)
  {
    text == "" || Contains(ToLower(e.content), ToLower(text))
  }

  /** The content refers to the tag: it contains "#" + tag, both lowercased. */
  predicate Tagged(content: string, tag: string)
  {
    Contains(ToLower(content), ToLower("#" + tag))
  }

  /** Without tags every event is kept; with tags, an event that refers to at least one of them. */
  ghost predicate TagKept(tags: seq<string>, e: Event)
  {
    tags == [] || exists i | 0 <= i < |tags| :: Tagged(e.content, tags[i])
  }

  ghost predicate Kept(q: Query, e: Event)
  {
    TypeKept(q.eventType, e) && TextKept(q.text, e) && TagKept(q.tags, e)
  }

  /** The events the filter keeps, in scan order. */
  ghost function Selected(events: seq<Event>, q: Query): seq<Event>
  {
    if events == [] then []
    else
      var last := events[|events| - 1];
      Selected(events[..|events| - 1], q) + (if Kept(q, last) then [last] else [])
  }

  /** Each event is kept exactly as often as it was scanned when it passes the filters, and never otherwise. */
  lemma {:induction false} SelectedCount(events: seq<Event>, q: Query, e: Event)
    ensures multiset(Selected(events, q))[e] == if Kept(q, e) then multiset(events)[e] else 0
  {
    if events != [] {
      var front, last := events[..|events| - 1], events[|events| - 1];
      SelectedCount(front, q, e);
      assert events == front + [last];
    }
  }

  /** An event is selected exactly when it was scanned and passes the filters. */
  lemma SelectedMember(events: seq<Event>, q: Query, e: Event)
    ensures e in Selected(events, q) <==> e in events && Kept(q, e)
  {
    SelectedCount(events, q, e);
    assert e in Selected(events, q) <==> e in multiset(Selected(events, q));
    assert e in events <==> e in multiset(events);
  }

  /** The tag loop: true as soon as one tag is referred to. */
  method HasTag(content: string, tags: seq<string>) returns (b: bool)
    ensures b <==> exists i | 0 <= i < |tags| :: Tagged(content, tags[i])
  {
    b := false;
    var i := 0;
    while i < |tags|
      invariant 0 <= i <= |tags|
      invariant forall j | 0 <= j < i :: !Tagged(content, tags[j])
    {
      var tagRef := "#" + tags[i];
      if Contains(ToLower(content), ToLower(tagRef)) {
        b := true;
        break;
      }
      i := i + 1;
    }
  }

  /** The three filters of the scan loop, in their order. */
  method Matches(e: Event, q: Query) returns (b: bool)
    ensures b == Kept(q, e)
  {
    if q.eventType != "" {
      if q.eventType == "note" && e.kind != Note {
        return false;
      }
      if q.eventType == "commit" && e.kind != GitCommit {
        return false;
      }
    }
    if q.text != "" {
      if !Contains(ToLower(e.content), ToLower(q.text)) {
        return false;
      }
    }
    if |q.tags| > 0 {
      b := HasTag(e.content, q.tags);
      return b;
    }
    return true;
  }

  /** The scan loop: the events that pass the filters, in scan order. */
  method Filter(events: seq<Event>, q: Query) returns (matched: seq<Event>)
    ensures matched == Selected(events, q)
  {
    matched := [];
    var i := 0;
    while i < |events|
      invariant 0 <= i <= |events|
      invariant matched == Selected(events[..i], q)
    {
      var keep := Matches(events[i], q);
      assert events[..i + 1][..i] == events[..i];
      if keep {
        matched := matched + [events[i]];
      }
      i := i + 1;
    }
    assert events[..|events|] == events;
  }

  /** Oldest first; events with equal timestamps may stand in either order. */
  ghost predicate ByTime(s: seq<Event>)
  {
    forall i, j | 0 <= i < j < |s| :: s[i].ts <= s[j].ts
  }

  /** Exchanges a[j - 1] and a[j]; nothing else moves. */
  method SwapDown(a: array<Event>, j: int)
    requires 0 < j < a.Length
    modifies a
    ensures a[j - 1] == old(a[j]) && a[j] == old(a[j - 1])
    ensures forall m | 0 <= m < a.Length && m != j - 1 && m != j :: a[m] == old(a[m])
    ensures multiset(a[..]) == multiset(old(a[..]))
  {
    a[j - 1], a[j] := a[j], a[j - 1];
  }

  /** One insertion step: a[i] moves down past the later events of the sorted a[..i]. */
  method InsertStep(a: array<Event>, i: int)
    requires 0 <= i < a.Length
    requires forall m, n | 0 <= m < n < i :: a[m].ts <= a[n].ts
    modifies a
    ensures forall m, n | 0 <= m < n <= i :: a[m].ts <= a[n].ts
    ensures multiset(a[..]) == multiset(old(a[..]))
  {
    var j := i;
    while j > 0 && a[j - 1].ts > a[j].ts
      invariant 0 <= j <= i
      invariant forall m, n | 0 <= m < n <= i && n != j :: a[m].ts <= a[n].ts
      invariant multiset(a[..]) == multiset(old(a[..]))
    {
      SwapDown(a, j);
      j := j - 1;
    }
  }

  /** sort.Slice by timestamp, as an insertion sort in place: ascending, and the same events. */
  method SortByTime(a: array<Event>)
    modifies a
    ensures ByTime(a[..])
    ensures multiset(a[..]) == multiset(old(a[..]))
  {
    var i := 0;
    while i < a.Length
      invariant 0 <= i <= a.Length
      invariant forall m, n | 0 <= m < n < i :: a[m].ts <= a[n].ts
      invariant multiset(a[..]) == multiset(old(a[..]))
    {
      InsertStep(a, i);
      i := i + 1;
    }
  }

  /** The default start: midnight of 2020-01-01, 18262 days after the epoch. */
  const DefaultStart: int := 18262 * NsPerDay

  /** Why a search failed. */
  datatype SearchError = BadFrom(cause: string) | BadTo(cause: string) | StoreFailed(err: StoreError)

  /**
   * The window searched. A given start is used as parsed, an absent one is the default start; a
   * given end is extended to the last nanosecond of its day, an absent one is now. A date that
   * does not parse is an error.
   */
  function Window(from: Option<Result<int, string>>, to: Option<Result<int, string>>, now: int): (r: Result<(int, int), SearchError>)
    ensures from.Some? && from.value.Err? ==> r == Err(BadFrom(from.value.error))
    ensures !(from.Some? && from.value.Err?) && to.Some? && to.value.Err? ==> r == Err(BadTo(to.value.error))
    ensures r.Ok? ==> r.value.0 == (if from.Some? then from.value.value else DefaultStart)
    ensures r.Ok? && to.None? ==> r.value.1 == now
    ensures r.Ok? && to.Some? ==> r.value.1 == to.value.value + NsPerDay - 1
  {
    if from.Some? && from.value.Err? then Err(BadFrom(from.value.error))
    else if to.Some? && to.value.Err? then Err(BadTo(to.value.error))
    else
      var start := if from.Some? then from.value.value else DefaultStart;
      var end := if to.Some? then to.value.value + NsPerDay - 1 else now;
      Ok((start, end))
  }

  /** A given end that is a midnight covers its whole day and nothing of the next. */
  lemma WindowCoversDay(to: int, now: int, ts: int)
    requires to == Midnight(to)
    ensures var r := Window(None, Some(Ok(to)), now);
      r.Ok? && (r.value.0 <= ts <= r.value.1 <==> DefaultStart <= ts && DayIndex(ts) <= DayIndex(to))
  {
    var r := Window(None, Some(Ok(to)), now);
    if ts <= r.value.1 {
      DayIndexMonotone(ts, r.value.1);
    } else {
      assert DayIndex(ts) > DayIndex(to) by {
        DayIndexMonotone(to + NsPerDay, ts);
      }
    }
  }

  /**
   * The search command without its rendering: the window, the events of the window, the
   * filters, and the sort. The result holds every scanned event that passes the filters, as often
   * as it was scanned, oldest first.
   */
  method SearchEvents(store: FileStore, from: Option<Result<int, string>>, to: Option<Result<int, string>>, now: int, q: Query)
    returns (r: Result<seq<Event>, SearchError>)
    ensures Window(from, to, now).Err? ==> r == Err(Window(from, to, now).error)
    ensures Window(from, to, now).Ok? ==>
      var (start, end) := Window(from, to, now).value;
      && (r.Err? <==> exists m | MonthKey(start) <= m <= MonthKey(end) && m in store.shards :: m in store.corrupt)
      && (r.Err? ==> r.error == StoreFailed(DecodeFailed))
      && (r.Ok? ==> ByTime(r.value) && multiset(r.value) == multiset(Selected(Gather(store.shards, MonthKey(start), MonthKey(end), start, end), q)))
  {
    var window := Window(from, to, now);
    if window.Err? {
      return Err(window.error);
    }
    var (start, end) := window.value;
    var events := store.GetEvents(start, end);
    if events.Err? {
      return Err(StoreFailed(events.error));
    }
    var matched := Filter(events.value, q);
    var a := new Event[|matched|](i requires 0 <= i < |matched| => matched[i]);
    assert a[..] == matched;
    SortByTime(a);
    return Ok(a[..]);
  }
}
