/**
 * The note use case: a note is recorded unless the working directory matches one of the
 * configured ignore patterns; the context is gathered as for a capture, and the message is kept
 * as it was given. `filepath.Match`, whose errors count as no match, arrives as a parameter.
 */
module Note {
  import opened Wrappers
  import opened Model
  import opened Store
  import opened Capture

  /** Whether some ignore pattern matches the working directory. */
  ghost predicate Ignored(patterns: seq<string>, wd: string, matches: (string, string) -> bool)
  {
    exists i | 0 <= i < |patterns| :: matches(patterns[i], wd)
  }

  /** The pattern loop of RecordNote: true as soon as a pattern matches the working directory. */
  method IsIgnored(patterns: seq<string>, wd: string, matches: (string, string) -> bool) returns (b: bool)
    ensures b <==> Ignored(patterns, wd, matches)
  {
    var i := 0;
    while i < |patterns|
      invariant 0 <= i <= |patterns|
      invariant forall j | 0 <= j < i :: !matches(patterns[j], wd)
    {
      if matches(patterns[i], wd) {
        return true;
      }
      i := i + 1;
    }
    return false;
  }

  /** Whether the configuration, when it loads, ignores the working directory. A load error ignores nothing. */
  ghost predicate Skipped(ignorePatterns: Option<seq<string>>, wd: string, matches: (string, string) -> bool)
  {
    ignorePatterns.Some? && Ignored(ignorePatterns.value, wd, matches)
  }

  /** The note a recording appends: the message as it was given, unlike a capture's trimmed output. */
  function NoteEvent(id: string, now: int, message: string, ctx: Context): (e: Event)
    ensures e.kind == Note && e.content == message && e.ctx == ctx && e.ts == now && e.id == id
  {
    Event(id, now, Note, message, ctx, "")
  }

  /**
   * RecordNote: an ignored directory records nothing and gives no event and no error; otherwise
   * the context is gathered and saved and the note appended; a busy shard is an error, after the
   * dictionary saves; success gives the event.
   */
  method RecordNote(store: FileStore, ignorePatterns: Option<seq<string>>, message: string, s: Surroundings,
                    matches: (string, string) -> bool, hashId: string -> string, newId: string, now: int, busy: bool)
    returns (r: Result<Option<Event>, StoreError>)
    requires store.Valid()
    modifies store
    ensures store.Valid()
    ensures Skipped(ignorePatterns, s.wd, matches) ==>
      r == Ok(None) && store.shards == old(store.shards) && store.dicts == old(store.dicts)
    ensures !Skipped(ignorePatterns, s.wd, matches) ==>
      var ctx := GatheredContext(old(store.dicts), store.corruptDicts, s, hashId);
      && store.dicts == GatheredDicts(old(store.dicts), store.corruptDicts, s, hashId)
      && (busy ==> r == Err(LockBusy) && store.shards == old(store.shards))
      && (!busy ==> r == Ok(Some(NoteEvent(newId, now, message, ctx))) && store.shards == Appended(old(store.shards), NoteEvent(newId, now, message, ctx)))
    ensures store.corrupt == old(store.corrupt) && store.corruptDicts == old(store.corruptDicts)
  {
    if ignorePatterns.Some? {
      var ignored := IsIgnored(ignorePatterns.value, s.wd, matches);
      if ignored {
        return Ok(None);
      }
    }
    var ctx := GatherContext(store, s, hashId);
    var event := Event(newId, now, Note, message, ctx, "");
    var err := store.AppendEvent(event, busy);
    if err.Some? {
      return Err(err.value);
    }
    return Ok(Some(event));
  }
}
