# wips-cli, modelled in Dafny

wips-cli (`wip`) keeps a personal activity log. Notes and git commits are recorded as events.
Each event carries an identifier, a timestamp, a type, its content and a context: references
into three dictionaries of the environment (`env`), the repository (`repos`) and the working
directory (`dirs`), plus the branch and head. Events are appended to one NDJSON shard per
calendar month (`events/YYYY-MM.ndjson`). The dictionaries are JSON objects keyed by a
fingerprint, and a key, once saved, is never overwritten.

The commands read the log back in several ways:
- `tail` shows the last events of the month.
- `search` filters a time window by type, text and `#tags`.
- `summary` groups a day, a week or the last week by date and by repository or directory, and
  exports the result as Markdown or text.
- `sync` writes a "wips-cli logs" section into Obsidian daily notes, one note per date.

Directories can be hidden from these views through the configuration.

This project models the core of that program and proves what it promises:

| module | models |
|---|---|
| `Store` (`store.dfy`) | The file store as a class over the decoded files: append, scan of a window month by month, update and delete by id through a whole-file rewrite, and idempotent dictionary saves and loads. |
| `Capture`, `Note` | The capture and note use cases: gathering the context into the dictionaries, then appending the event. |
| `Summary`, `Renderer` | The summary use case (range, filters, grouping, sorted headings) and its export renderer. |
| `Search`, `Tail` | The `search` and `tail` commands without their table printing. |
| `Obsidian`, `SyncManager` | The Obsidian sync target (file name, generated section, splicing the section into a note, batching by date) and the target registry. |
| `Config`, `Hidden` | The hidden-directory list of the configuration and the hidden-directory test. |
| `Format`, `View` | The event formatters of the terminal, the export and `view`, and the relative duration format. |
| `Model`, `Clock`, `Text`, `Sorting`, `Wrappers` | Events and dictionary values; nanosecond timestamps with the civil calendar; the Go `strings` operations used; `sort.Strings`; `Option` and `Result`. |

Everything outside the program's own logic arrives as a parameter or as state:
- **Time.** A timestamp is an `int`: nanoseconds of the local wall clock since 1970-01-01 00:00.
  `time.Now()` is the parameter `now`.
- **Identifiers.** A fresh ULID is `newId`. Reading the time out of a ULID is the store's
  function `idTime`, which gives none for an id that does not parse. The SHA-256 fingerprint
  `id.GetHashID` is `hashId`.
- **Capture and note inputs.**
  - The environment, the `git` answers and the working directory come as a `Surroundings`
    value.
  - The commit content provider's outcome is a `Result`.
  - `config.Load` gives `Option` ignore patterns, and `filepath.Match` is `matches`.
- **Store failures.**
  - A lock held by another process when appending is the flag `busy`.
  - A shard or a dictionary file that does not decode is marked in `corrupt` or `corruptDicts`. The store invariant `Valid()` keeps these flags to files that exist, and every operation that changes the store keeps it.
- **Command inputs.**
  - The dates given to `search` arrive as their parse outcome.
  - The month file read by `tail` arrives as its lines, each decoded or not.
  - An Obsidian note arrives as its text, or none when it does not exist.
- **Styling.** The terminal colouring of a commit hash is the function `hashColor` or `render`.

The use cases save the repository as `git.Info`, a struct without JSON tags. Its dictionary
entry therefore has the keys `Root` and `Remote` (`Capture.GitInfoValue`), while every
reader looks for `name`. As a consequence, a repository recorded by the program itself never
names a heading. The headings fall back to the working directory (`Capture.SavedRepoUnnamed`).
The `RepoInfo` record with its `name` key (`Model.RepoValue`) describes entries written by
other means.

## Model

| member | source | states |
|---|---|---|
| Model.RepoValue | internal/model/types.go:48-53 | A repository entry holds `name` and `root`, and holds `remote` exactly when the remote is non-empty. |
| Model.EnvValue | internal/model/types.go:55-61 | An environment entry holds exactly `host`, `os`, `arch` and `user`. |
| Model.DirEntry | internal/usecase/summary.go:107-112 | The directory of an event is known exactly when its `cwdId` is set and names a string entry of `dirs`. |
| Model.DirPath | cmd/wip/tail.go:82-87 | The directory path is the `dirs` entry when known, else the empty path. |
| Model.RepoName | internal/usecase/summary.go:153-159 | A repository name is found exactly when `repoId` names an object entry with a string `name`. |
| Model.GroupName | internal/usecase/summary.go:151-167 | The heading is "@" and the repository name, else the folder mark and the directory, else "(unknown)"; it is never empty. |
| Clock.Midnight | internal/usecase/summary.go:76 | The start of the day lies on the same day, at most one day before the instant. |
| Clock.Weekday | internal/usecase/summary.go:59 | The weekday is in 0..6. |
| Clock.WeekdayEpoch | internal/usecase/summary.go:59-62 | 1970-01-01 is a Thursday (4) and 1970-01-04 a Sunday (0), as Go numbers the days of the week. |
| Clock.WeekdaySteps | internal/usecase/summary.go:59-62 | Every instant of a day has its midnight's weekday, the next day has the next weekday (Saturday wraps to Sunday), and a week later the weekday is the same. |
| Clock.CivilOfDay | internal/store/store.go:75 | Every day maps to a valid day of a month; days before 1970 map to months before January 1970. |
| Clock.MonthKeyMonotone | internal/store/store.go:179-182 | A later instant never lies in an earlier month, so the month walk from start to end covers every event in the window. |
| Clock.ClockString | internal/sync/obsidian/target.go:185 | The clock time "15:04" is two digits, a colon and two digits. They read back as an hour below 24 and a minute below 60, and the instant lies within that minute of its day. |
| Text.TrimSpace | internal/usecase/capture.go:90 | The trimmed text neither starts nor ends with white space, and keeps only characters of the input. |
| Text.TrimSpaceSpec | internal/ui/format.go:45 | The trimmed text is the slice of the input left after cutting white space, and only white space, from either end; it neither starts nor ends with white space. |
| Text.Fields | internal/ui/format.go:36 | Every field is non-empty and holds no white space. |
| Text.FieldsNone | internal/ui/format.go:36-37 | There are no fields exactly when the text is all white space. |
| Text.FieldsConcat | internal/ui/format.go:36 | The fields, concatenated in order, are exactly the non-space characters of the text: nothing but white space is lost. |
| Text.FieldsSkipsSpace | internal/ui/format.go:36 | Leading white space does not change the fields. |
| Text.FieldsWordBreak | internal/ui/format.go:36 | A word ended by white space is the first field, followed by the fields of the rest. |
| Text.FieldsOneWord | internal/ui/format.go:36 | A word on its own is the only field. |
| Text.FieldsFirstPrefix | internal/ui/format.go:41-45 | The first field starts the text exactly when the text does not start with white space, which is when `strings.TrimPrefix` cuts the hash off. |
| Text.FieldsWordSpace | internal/ui/format.go:36-43 | A word followed by a space is the first field, and the rest of the line gives the other fields. |
| Text.TrimPrefix | internal/ui/format.go:45 | The prefix and the result make up the input when the prefix is present; otherwise the input comes back unchanged. |
| Text.IndexOf | internal/ui/format.go:57 | The index of the first line break, or -1 exactly when there is none. |
| Text.Split | internal/sync/obsidian/target.go:204 | Splitting gives at least one piece, no piece holds the separator, and there is one piece exactly when the separator is absent. |
| Text.SplitJoin | internal/sync/obsidian/target.go:204 | Joining the pieces of a split with the separator gives the text back. |
| Text.FirstLine | internal/ui/format.go:33-35 | The first line holds no line break, is a prefix of the text, and is the whole text exactly when there is no line break. |
| Text.TrimRightChar | internal/sync/obsidian/target.go:256 | `strings.TrimRight` of line breaks drops exactly the trailing line breaks. |
| Text.ToLower | cmd/wip/search.go:114 | Lowercasing keeps the length and maps each character on its own. |
| Text.Padded | internal/store/store.go:75 | A zero-padded number is all digits, at least as wide as asked, and reads back as the number. |
| Text.DecimalRoundTrip | internal/store/store.go:75 | The decimal text of a number reads back as that number. |
| Store.ShardNameInjective | internal/store/store.go:75 | Distinct months have distinct shard file names. |
| Store.FileStore.constructor | internal/store/store.go:40-57 | A new store has no shards and no dictionaries, and satisfies the store invariant `Valid()`: only a shard or dictionary that exists can be flagged as undecodable. |
| Store.FileStore.AppendEvent | internal/store/store.go:73-104 | A busy lock is an error and leaves the shards unchanged. Otherwise the event is appended to the shard of its month, created if missing, and nothing else changes. The store invariant is kept, and a shard created here is not flagged as undecodable. |
| Store.AppendThenRead | internal/store/store.go:73-104 | The first append of a month creates a clean shard: reading that month then gives exactly the appended event. |
| Store.Appended | internal/store/store.go:75-101 | Appending adds the event at the end of its month's shard and leaves every other shard as it was. |
| Store.AppendedPlaced | internal/store/store.go:75 | If every event lies in the shard of its own month, that still holds after an append. |
| Store.AppendThenScan | internal/store/store.go:174-208 | An appended event is found by any later scan of a window that contains its timestamp. |
| Store.FileStore.ReadEvents | internal/store/store.go:271-303 | A missing shard is an error, a shard with an undecodable line is an error, and otherwise the result is the shard's events in file order. |
| Store.FileStore.GetEvents | internal/store/store.go:174-208 | The scan fails exactly when a shard of a month in the window does not decode. Otherwise it gives the events of the window, month by month in file order. |
| Store.AppendInRange | internal/store/store.go:198-202 | The inner loop adds the file's events within [start, end], in order, after those found so far. |
| Store.InRangeMember | internal/store/store.go:198-202 | An event is kept exactly when its timestamp lies in [start, end], both ends included. |
| Store.GatherMember | internal/store/store.go:179-205 | The month walk finds an event exactly when it is in the shard of a visited month and inside the window. |
| Store.ScanExact | internal/store/store.go:174-208 | If every event lies in its month's shard, a scan finds exactly the stored events inside the window. |
| Store.GatherMonths | internal/store/store.go:179-205 | Every event found lies in a visited month. |
| Store.GatherMonthOrdered | internal/store/store.go:179-205 | The events found come month by month, never returning to an earlier month. |
| Store.FileStore.RewriteFile | internal/store/store.go:305-352 | A missing shard, an undecodable shard or a failing transform is an error and leaves the shards unchanged. Otherwise the shard is replaced by the transformed events. |
| Store.RewritePlaced | internal/store/store.go:305-352 | A rewrite whose edits keep the timestamps keeps every event in its month's shard. |
| Store.FileStore.UpdateEvent | internal/store/store.go:210-239 | An id that does not parse is an error. Otherwise the shard of the id's month is rewritten with the first event of that id mutated; a missing id or a failing mutator is an error that changes nothing. |
| Store.FirstIndex | internal/store/store.go:224-233 | The index found is the first event with the id, or -1 exactly when no event has it. |
| Store.UpdateFirstOnly | internal/store/store.go:223-238 | The update succeeds exactly when the id is present and the mutator accepts its first event; only that event changes. |
| Store.ApplyUpdate | internal/store/store.go:223-238 | The update loop computes that update. |
| Store.FileStore.DeleteEvent | internal/store/store.go:241-269 | An id that does not parse is an error. Otherwise the shard of the id's month loses every event with the id; an absent id is an error that changes nothing. |
| Store.RemoveIdSpec | internal/store/store.go:254-268 | The events left are exactly those with another id. Those removed are counted, and none are removed exactly when the id is absent. |
| Store.CountIdUnique | internal/store/store.go:254-268 | In a shard of distinct ids, an id that occurs occurs once. |
| Store.DeleteUniqueRemovesOne | internal/store/store.go:254-268 | In a shard of distinct ids, a delete removes exactly one event. |
| Store.ApplyDelete | internal/store/store.go:254-268 | The delete loop computes that delete. |
| Store.FileStore.SaveDict | internal/store/store.go:106-172 | An undecodable dictionary is an error and changes nothing. Otherwise the key is added with its value unless it is already there, and the shards are untouched. The store invariant is kept, and a dictionary created here is not flagged as undecodable. |
| Store.Saved | internal/store/store.go:149-155 | An existing key keeps its value and a new key gets the value; every other key is untouched. |
| Store.SavedFirstWins | internal/store/store.go:149-155 | After a save the key is present, with the first value saved under it. Every other entry and every other dictionary is kept. |
| Store.SavedTwice | internal/store/store.go:106-172 | Saving the same key twice is the same as saving it once. |
| Store.FileStore.LoadDict | internal/store/store.go:354-383 | A missing dictionary reads as empty and an undecodable one is an error. Otherwise the result is its entries. |
| Hidden.IsHiddenDir | internal/filter/hidden.go:11-21 | With no hidden directories, nothing is hidden. |
| Hidden.IsHiddenDirExists | internal/filter/hidden.go:11-21 | A path is hidden exactly when it equals a hidden directory or lies below one, after a separator. |
| Hidden.HiddenOrderFree | internal/filter/hidden.go:12-19 | Neither the order nor repetitions of the hidden list matter. |
| Hidden.SiblingPrefixNotHidden | internal/filter/hidden.go:15 | A sibling that only shares a name prefix ("secret-other" and "secret") is not hidden, while the directory and its children are. |
| Config.Config.constructor | internal/config/config.go:12-16 | A configuration holds the ignore patterns and the hidden directories given. |
| Config.Config.AddHiddenDir | internal/config/config.go:94-109 | A directory is appended, and the configuration saved, exactly when it is not listed yet. |
| Config.WithDirSpec | internal/config/config.go:100-107 | Adding keeps the list as a prefix, lists the directory, adds nothing else, and keeps a list without repeats free of repeats. |
| Config.Config.RemoveHiddenDir | internal/config/config.go:112-134 | An unlisted directory is the "not found" error and changes nothing. Otherwise the directory is removed from the list. |
| Config.WithoutDir | internal/config/config.go:118-126 | Removing never lengthens the list. |
| Config.WithoutDirSpec | internal/config/config.go:118-126 | Removing drops exactly that directory, changes nothing when it is absent, and keeps a list without repeats free of repeats. |
| Config.Config.IsHiddenDir | internal/config/config.go:137-148 | The configuration's test is the hidden-directory test on its list. |
| Sorting.BelowTotal | internal/usecase/summary.go:178 | String order compares any two strings. |
| Sorting.BelowTrans | internal/usecase/summary.go:178 | String order is transitive. |
| Sorting.BelowAntisym | internal/usecase/summary.go:178 | String order is antisymmetric. |
| Sorting.InsertSpec | internal/usecase/summary.go:178 | Inserting into a sorted list keeps it sorted and adds exactly the element. |
| Sorting.SortStringsSpec | internal/usecase/summary.go:176-179 | `sort.Strings` gives a sorted permutation of its input. |
| Sorting.SortStringsDistinct | internal/usecase/summary.go:176-179 | Sorting distinct headings gives distinct headings, the same ones. |
| Summary.WeekStart | internal/usecase/summary.go:67-71 | The week starts at the Monday midnight at or before the instant, less than a week earlier. |
| Summary.WeekBefore | internal/usecase/summary.go:63-64 | A week before a Monday midnight is a Monday midnight. |
| Summary.DayIndexOfDays | internal/usecase/summary.go:73 | Whole days from the epoch are midnights of that day. |
| Summary.SummaryRange | internal/usecase/summary.go:57-77 | `--last-week` gives Monday to Sunday of the week before the current one. `--week` gives this Monday to now, and `--days n` the midnight n days back to now. Otherwise the range is today's midnight to now. |
| Summary.Filtered | internal/usecase/summary.go:94-129 | Filtering never adds events. |
| Summary.FilteredMember | internal/usecase/summary.go:94-129 | An event is kept exactly when it was read and passes the type and hidden-directory filters. |
| Summary.BothTypeFiltersKeepNothing | internal/usecase/summary.go:97-102 | Asking for commits only and notes only keeps nothing. |
| Summary.HiddenViewsPartition | internal/usecase/summary.go:104-125 | The hidden-only view and the default view split the include-hidden view between them. |
| Summary.FilterEvents | internal/usecase/summary.go:94-129 | The filter loop keeps those events in order. |
| Summary.Entries | internal/usecase/summary.go:139-167 | Each event gets its date and heading, in order. |
| Summary.FindDate | internal/usecase/summary.go:142 | The date lookup finds the first group of that date, or reports that there is none. |
| Summary.SelectMember | internal/usecase/summary.go:169-173 | A heading lists exactly the events filed under its date and name. |
| Summary.DedupSpec | internal/usecase/summary.go:142-148 | The dates of the groups are the dates read, each once. |
| Summary.GroupedDescribes | internal/usecase/summary.go:135-174 | The grouping has one group per date in first-seen order. Each group's map and order hold exactly the headings seen that day, and each heading holds that day's events for it, in order. |
| Summary.FileEvent | internal/usecase/summary.go:142-173 | One iteration files the event under its date and heading through the date-to-group map: a new date opens a group at the end, and a new heading joins the end of the day's order. |
| Summary.GroupByDay | internal/usecase/summary.go:135-174 | The grouping loop builds that grouping. |
| Summary.SortDirOrders | internal/usecase/summary.go:176-179 | The sort loop sorts each day's heading order. |
| Summary.LostHeading | internal/usecase/summary.go:142-148 | As written, a heading first seen on a day that comes back after another date is in the day's map but not in its order; the model's grouping lists it. |
| Summary.ContiguousAsWritten | internal/usecase/summary.go:136-148 | When each date's events are read together, the loop as written builds exactly the model's grouping. |
| Summary.SortedGroupsShow | internal/usecase/summary.go:135-179 | After sorting, every day shows each of its headings once, in sorted order, with that day's events for it. |
| Summary.SummarizeSpec | internal/usecase/summary.go:51-186 | The summary's days show exactly the filtered events, grouped by date and heading. |
| Summary.EveryEventShown | internal/usecase/summary.go:94-174 | Every event that passes the filters is shown under its date and its heading. |
| Summary.GetSummary | internal/usecase/summary.go:51-186 | The summary fails exactly when a shard in the range does not decode. Otherwise it is the summary of the events of the range; dictionaries that do not decode read as empty. |
| Renderer.RenderExport | internal/ui/summary_renderer.go:58-99 | The export is the header, then each day's heading and its headings' blocks, in Markdown for "md" and in text otherwise. |
| Renderer.DirsText | internal/ui/summary_renderer.go:75-94 | A day's block lists its headings in order, each with its events. |
| Renderer.EventsText | internal/ui/summary_renderer.go:83-92 | A heading's lines are its events' lines, in order. |
| Renderer.EventLinesShow | internal/ui/summary_renderer.go:83-92 | Every event of a heading has its line in the heading's block. |
| Renderer.ShowsInDirBlock | internal/ui/summary_renderer.go:75-94 | A heading's block shows its title and each of its events. |
| Renderer.DirBlocksShow | internal/ui/summary_renderer.go:75-94 | What a listed heading's block shows, the day's text shows. |
| Renderer.DayBlocksShow | internal/ui/summary_renderer.go:67-95 | What a day's block shows, the document shows. |
| Renderer.ExportShows | internal/ui/summary_renderer.go:58-99 | An event shown under a date and heading is exported with the day's heading, its own line and the heading's title. |
| Renderer.SummaryRenderable | internal/ui/summary_renderer.go:75-76 | Every heading a summary lists has its group, filed under its own name. |
| Renderer.EveryEventExported | internal/ui/summary_renderer.go:58-99 | Every event the summary keeps appears in the export under its date heading and its heading title. |
| Format.ParseCommitLine | internal/ui/format.go:36-45 | A commit line is split into hash and message exactly when it has two fields or more. The hash is the first field. The message is the rest of the line after the hash, trimmed, when the line starts with the hash; a line with leading white space keeps the hash in its trimmed message. |
| Format.ParseCommitLineOneline | internal/ui/format.go:41-46 | "hash msg", as `git show --oneline` prints it, splits into that hash and that message. |
| Format.SingleLine | internal/ui/format.go:55-59 | The summary is the trimmed text when it is one line, else its first line and " ..."; it never holds a line break. |
| Format.SingleLineKeeps | internal/ui/format.go:55-59 | A trimmed one-line text, with or without a final line break, is shown as it is. |
| Format.SingleLineCuts | internal/ui/format.go:56-58 | A text with more lines is cut after its first line, which is marked " ...". |
| Format.StyledSummary | internal/ui/format.go:24-60 | Every summary is one line, and a non-commit summary is the single-line form of its content. |
| Format.FormatEventWithStyle | internal/ui/format.go:22-61 | Notes, commits, undos and other types each get their icon, and the summary is one line. A commit with two fields or more whose hash is not "commit" is summarised from "msg (hash)" with the hash coloured; any other event from its content. |
| Format.StyledCommitParsed | internal/ui/format.go:39-47 | A commit line whose first field is not "commit" is shown as "msg (hash)" with the hash coloured. |
| Format.StyledCommitOneline | internal/ui/format.go:22-61 | A commit "hash msg" is summarised as "msg (hash)". |
| Format.FormatEventPlain | internal/ui/format.go:63-80 | A non-commit is shown as its content. A commit is shown on one line: its first line when that has fewer than two fields, else "msg [hash]" from the parsed first line. The `cleanContent` functions at internal/ui/summary_renderer.go:142-157 and internal/sync/obsidian/target.go:289-305 are the same formatter. |
| Format.PlainCommitOneline | internal/ui/format.go:65-79 | A commit "hash msg" is exported as "msg [hash]". |
| Format.FormatEventForSummary | internal/ui/format.go:82-119 | The icon follows the type. A non-commit shows its first line, with "..." exactly when more lines follow. A commit with fewer than two fields shows its first line, else "msg (hash)" from the parsed first line with the hash rendered. The renderer's `FormatEvent` at internal/ui/summary_renderer.go:103-140 is the same formatter. |
| Format.TruncDiv | internal/ui/format.go:124 | Go's integer conversion truncates toward zero. |
| Format.DurationParts | internal/ui/format.go:121-133 | The unit is minutes below an hour, hours below a day, days below a week, else weeks. The count is the exact quotient by the unit, truncated toward zero (see Left out for the float64 rounding of weeks). |
| Format.DurationBuckets | internal/ui/format.go:121-133 | For a non-negative duration the count fits its unit: under 60 minutes, 1 to 23 hours, 1 to 6 days, at least 1 week. |
| Format.FormatDuration | internal/ui/format.go:121-133 | The duration is written as the count followed by the unit letter, all digits for a non-negative duration (see Left out for weeks). The command package's copy at cmd/wip/view.go:58-69 is the same function. |
| Format.FormatDurationHourBoundary | internal/ui/format.go:123-127 | Just under an hour is "59m", and an hour is "1h". |
| Format.FormatDurationDayBoundary | internal/ui/format.go:126-130 | Just under a day is "23h", and a day is "1d". |
| Format.FormatDurationWeekBoundary | internal/ui/format.go:129-132 | Just under a week is "6d", a week is "1w", and two weeks are "2w". |
| View.FormatEvent | cmd/wip/view.go:20-56 | Notes and commits get their icons and every other type the bullet. Otherwise the result is the terminal formatter's, always on one line. |
| View.FormatEventSingleLine | cmd/wip/view.go:50-55 | A trimmed one-line note is shown as it is. |
| View.FormatEventMultiLine | cmd/wip/view.go:51-54 | A note with more lines shows its first line and " ...". |
| View.FormatEventCommitCase | cmd/wip/view.go:26-44 | A commit "hash msg" followed by more lines is shown as "msg (hash)". |
| Obsidian.SectionHeader | internal/sync/obsidian/target.go:137-140 | The header in effect is the configured one, or "## wips-cli logs" when none is set. |
| Obsidian.ReplaceDatePlaceholders | internal/sync/obsidian/target.go:307-314 | "{{yyyy}}", "{{mm}}" and "{{dd}}" are replaced by the year, month and day. |
| Obsidian.ReplaceDatePlain | internal/sync/obsidian/target.go:307-314 | A format without placeholders is kept as it is. |
| Obsidian.ReplaceDateCopies | internal/sync/obsidian/target.go:307-314 | Other characters are copied. |
| Obsidian.DefaultFilename | internal/sync/obsidian/target.go:63-79 | The default format names the note "2006-01-02.md" after its date. |
| Obsidian.LeadingHashes | internal/sync/obsidian/target.go:276-282 | The count of leading '#' characters. |
| Obsidian.GetHeaderLevel | internal/sync/obsidian/target.go:273-287 | The level is the count of leading '#' characters of the trimmed line. |
| Obsidian.IsSectionHeader | internal/sync/obsidian/target.go:209 | A line is the section header exactly when its trimmed text equals it. |
| Obsidian.ClosesSection | internal/sync/obsidian/target.go:213-221 | A later line closes the section when it starts with '#' at a level no deeper than the header's. |
| Obsidian.ScanLine | internal/sync/obsidian/target.go:208-222 | One line of the scan: a header line restarts the section, a closing line after a start ends it, and any other line moves on. |
| Obsidian.FindSection | internal/sync/obsidian/target.go:204-223 | The scan loop finds the section as the specification of the scan does. |
| Obsidian.ScanSpec | internal/sync/obsidian/target.go:208-223 | The section starts at the last header line before the first closing line that follows a header line, and ends at that closing line, if any. |
| Obsidian.FlagsRead | internal/sync/obsidian/target.go:208-223 | The flags of the scan read as header lines and closing lines. |
| Obsidian.FlagsDisjoint | internal/sync/obsidian/target.go:209-215 | A header line never closes the section. |
| Obsidian.LocatedSpec | internal/sync/obsidian/target.go:204-223 | The located section is described in terms of the note's lines. |
| Obsidian.LinesBefore | internal/sync/obsidian/target.go:259-261 | The lines before the section are written back, each with its line break. |
| Obsidian.SpliceLines | internal/sync/obsidian/target.go:256-270 | The rebuild as written: the lines before, the new section, a blank line when more follows, then each later line with a line break. |
| Obsidian.SpliceAddsLineBreak | internal/sync/obsidian/target.go:263-268 | The rebuild as written ends with one line break more than the kept text whenever a later header closes the section. |
| Obsidian.SpliceLinesKept | internal/sync/obsidian/target.go:256-270 | The corrected rebuild: the lines before, the new section, then the rest of the note after a blank line, exactly as it was. |
| Obsidian.SpliceKeptKeepsRest | internal/sync/obsidian/target.go:250-270 | The note is the text before the section, the section and the text after it, and the corrected rebuild keeps the text around the section byte for byte. |
| Obsidian.UpdateFileContent | internal/sync/obsidian/target.go:196-271 | The update loop computes the updated note. |
| Obsidian.UpdateWithoutSection | internal/sync/obsidian/target.go:225-242 | A note without the header line gets the section added as the configuration places it. |
| Obsidian.AppendedKeepsNote | internal/sync/obsidian/target.go:227-241 | An empty note becomes the section. "top" puts the section above the note. Otherwise the note is kept whole, ended with a line break, and the section follows after a blank line. |
| Obsidian.UpdateWithSection | internal/sync/obsidian/target.go:244-270 | A note with the header line has the located section replaced, and the text before and after it kept. |
| Obsidian.UpdateEmptyNote | internal/sync/obsidian/target.go:227-229 | An empty note becomes exactly the new section. |
| Obsidian.CollectByHeading | internal/sync/obsidian/target.go:149-176 | The grouping loop files each event under its heading, first-seen headings in order. |
| Obsidian.CollectedKeys | internal/sync/obsidian/target.go:149-176 | The groups are exactly the headings of the events, each holding that heading's events in order. |
| Obsidian.GeneratedHeadings | internal/sync/obsidian/target.go:149-178 | The headings are written in sorted order, each once, and each with exactly its events. |
| Obsidian.GeneratedShowsEvent | internal/sync/obsidian/target.go:124-194 | The section starts with its header and a blank line, and shows every event's heading and line. |
| Obsidian.GenerateContent | internal/sync/obsidian/target.go:124-194 | The generated section uses the dictionaries as read, empty when they do not decode. |
| Obsidian.WithKey | internal/sync/obsidian/target.go:41-45 | A date's batch holds only events of that date, all taken from the input. |
| Obsidian.BatchKeys | internal/sync/obsidian/target.go:41-45 | There is a batch exactly for each date of an event. |
| Obsidian.BatchContents | internal/sync/obsidian/target.go:41-45 | Each batch holds exactly its date's events, in order, and is never empty. |
| Obsidian.WithKeyNone | internal/sync/obsidian/target.go:41-45 | A date without events has an empty batch. |
| Obsidian.SyncBatches | internal/sync/obsidian/target.go:35-45 | A disabled target syncs nothing. An enabled one batches the events by date. |
| Obsidian.SyncDateNewNote | internal/sync/obsidian/target.go:56-122 | A missing note is skipped unless notes may be created. A created or empty note holds exactly the generated section, named after its date by default. |
| SyncManager.Registered | internal/sync/manager.go:28-30 | A registered target is filed under its name, and every other name keeps its target. |
| SyncManager.Lookup | internal/sync/manager.go:33-36 | A lookup finds a target exactly when the name is registered, and finds the one filed under it. |
| SyncManager.RegisterThenGet | internal/sync/manager.go:27-36 | A target registered is found under its name. Other names are unaffected, and a later target of the same name replaces it. |
| SyncManager.Manager.constructor | internal/sync/manager.go:21-25 | A new manager has no targets. |
| SyncManager.Manager.RegisterTarget | internal/sync/manager.go:28-30 | Registering updates the registry in this way. |
| SyncManager.Manager.GetTarget | internal/sync/manager.go:33-36 | The lookup reports the registered target or none. |
| Capture.GitInfoValue | internal/usecase/capture.go:67 | The saved repository entry has exactly the keys `Root` and `Remote`. |
| Capture.RepoKey | internal/usecase/capture.go:62-65 | A repository is keyed by its remote, or by its root when it has no remote. |
| Capture.TrySaveOthers | internal/usecase/capture.go:56-58 | A save into one dictionary leaves every other dictionary as it was. |
| Capture.GatheredDictsKeep | internal/usecase/capture.go:53-83 | Gathering the context never changes an existing entry or any other dictionary, and leaves an undecodable dictionary as it is. |
| Capture.GatheredContextResolves | internal/usecase/capture.go:53-83 | Every reference in the context names an entry of its dictionary, and a new directory entry holds the working directory. |
| Capture.SavedRepoUnnamed | internal/usecase/capture.go:61-83 | A repository saved by the use case gives no repository name, so a new event's heading is its working directory. |
| Capture.SaveRef | internal/usecase/capture.go:56-58 | A reference is set exactly when the dictionary decodes, and the dictionary gains the entry. |
| Capture.GatherContext | internal/usecase/capture.go:50-83 | The context and the dictionaries after gathering are the specified ones, and the shards are untouched. |
| Capture.CapturedEvent | internal/usecase/capture.go:86-92 | A capture records a commit whose content is the trimmed output, with the gathered context. |
| Capture.CaptureEvent | internal/usecase/capture.go:37-101 | An unknown type is an error, as is a failing content provider; neither changes anything. Otherwise the context is saved and the commit appended, and a busy shard is an error after the dictionary saves. |
| Note.IsIgnored | internal/usecase/note.go:42-51 | The directory is ignored exactly when some pattern matches it. |
| Note.NoteEvent | internal/usecase/note.go:91-97 | A note records the message as given, with the gathered context. |
| Note.RecordNote | internal/usecase/note.go:39-105 | An ignored directory records nothing and is no error. Otherwise the context is saved and the note appended and returned, and a busy shard is an error after the dictionary saves. |
| Search.HasTag | cmd/wip/search.go:121-134 | The tag loop succeeds exactly when the content, lowercased, contains "#" and one of the tags, lowercased. |
| Search.Matches | cmd/wip/search.go:96-134 | An event passes exactly when its type, its text and its tags match the query. |
| Search.Filter | cmd/wip/search.go:94-137 | The scan keeps exactly the passing events, in order. |
| Search.SelectedMember | cmd/wip/search.go:94-137 | An event is matched exactly when it was read and passes the filters. |
| Search.SelectedCount | cmd/wip/search.go:94-137 | A passing event is kept as often as it was read, and a failing one never. |
| Search.SortByTime | cmd/wip/search.go:144-147 | The sort leaves the events oldest first and is a permutation. |
| Search.InsertStep | cmd/wip/search.go:144-147 | One insertion step extends the sorted prefix and permutes the events. |
| Search.Window | cmd/wip/search.go:49-78 | A date that does not parse is an error. The start defaults to 2020-01-01 and the end to now, and a given end is extended to the last nanosecond of its day. |
| Search.WindowCoversDay | cmd/wip/search.go:69-78 | An end date covers its whole day and nothing of the next. |
| Search.SearchEvents | cmd/wip/search.go:49-147 | Window errors and undecodable shards are errors. Otherwise the result is oldest first and holds every matching event of the window, as often as it was read. |
| Tail.DecodedCount | cmd/wip/tail.go:76-108 | A kept event occurs as often as it was decoded, and a filtered one never. |
| Tail.ScannedMember | cmd/wip/tail.go:76-108 | An event is listed exactly when it was decoded and is visible. A listed event is outside every hidden directory unless those are included, and, when not global, in the working directory by string prefix. |
| Tail.Shows | cmd/wip/tail.go:80-106 | The filters of one line compute visibility. |
| Tail.ScanLines | cmd/wip/tail.go:76-108 | The scan loop keeps the visible decoded events in file order. |
| Tail.StartAsWritten | cmd/wip/tail.go:112-116 | As written, a count n >= 0 starts within the events, and a negative one starts past their end. |
| Tail.TailStart | cmd/wip/tail.go:112-116 | The last n events are shown, all of them when there are fewer, and none for a negative n. It agrees with the source for every n >= 0. |
| Tail.Base | cmd/wip/tail.go:143 | `filepath.Base` is never empty. |
| Tail.LastElement | cmd/wip/tail.go:143 | The last element holds no separator, ends the path, and follows a separator. |
| Tail.BaseOfChild | cmd/wip/tail.go:143 | The base of parent/name is name. |
| Tail.Label | cmd/wip/tail.go:130-146 | Global mode labels an event with "@" and the repository name, else the folder mark and the directory's base name, else nothing. Otherwise there is no label. |
| Tail.Rows | cmd/wip/tail.go:123-146 | One row per shown event, in order, each with its label. |
| Tail.BuildRows | cmd/wip/tail.go:123-146 | The print loop builds those rows. |
| Tail.TailEvents | cmd/wip/tail.go:50-116 | A month without a file shows the no-events message. Otherwise the last n visible events are shown with their labels; dictionaries that do not decode read as empty. |

## Left out

- Locks and concurrency: the file locks and the in-process mutex. Only a busy lock on append is modelled (`busy`); the blocking locks of the other store operations are taken to succeed.
- Store.FileStore.AppendEvent: lock, open, marshal and write failures other than a busy lock are not modelled, because they are I/O errors outside the program's logic.
- Store.FileStore.RewriteFile: a missing shard is modelled as the "file not found" branch. The blocking lock (gofrs/flock) opens the file with O_CREATE before that branch, so in practice an empty file is created and the update or delete reports "event not found" instead. Either way, nothing is recorded.
- JSON encoding and decoding: files are abstracted to their decoded contents. Undecodable files are flags, `meta` is opaque, and error messages are constructors rather than text.
- `NewStore`, `Prepare` and `GetRootDir`: the choice and creation of the data directory are I/O.
- ULID generation and parsing, and the SHA-256 fingerprint: foreign code, given as parameters.
- Time zones and daylight saving time: timestamps are local wall-clock nanoseconds; the zone stored with each event is not modelled.
- `naturaldate` parsing of the search dates: a foreign library; its outcome is an input.
- Search.Matches: `--regex` queries are not modelled, because Go's regular expressions are outside this model; only the substring query is.
- Text.ToLower: lowercases ASCII letters only, where Go's `strings.ToLower` lowercases all of Unicode, because Unicode case tables are out of scope.
- Printing: tables (tabwriter), colours, the relative-time column of `tail` and `search`, `FormatTimeRelative`, the summary's pretty renderer and the status messages are terminal output.
- `config.Load`, `config.Save` and TOML are file I/O. The outcome of loading is an input, and `AddHiddenDir` reports whether it would save. `filepath.Abs` is left out: paths arrive absolute.
- `filepath.Match` is foreign; it is the parameter `matches`, and its errors count as no match, as the source treats them.
- The path separator is '/', as on Unix.
- tail: errors opening the month file other than "does not exist", and `bufio.Scanner`'s line-length limit, are I/O.
- syncDate: `~` expansion, directory creation, stat, read and write errors, and the messages are I/O. `Obsidian.SyncDate` models which note is written and what it holds.
- Sync: Go visits the date batches in random order and stops at the first failing date. The model gives the batches as a map, and each date's write is independent.
- The sync target interface: a target is modelled as its name and an identity.
- Format.DurationParts, Format.FormatDuration: the count is the exact integer quotient. Go computes it from the float64 `Minutes()` and `Hours()`, and for weeks the float64 sum can round a duration just under a whole number of weeks up to it. From 25 weeks on this changes the count: 4200 hours less one nanosecond prints "25w" in Go and "24w" here. Below a week the counts agree.
- Tail.TailEvents: uses the corrected start (Tail.TailStart). For a negative `-n` the source panics instead (see Findings).
- Tail.TailEvents: the month file's lines are an input (`file`), each decoded or not, and are not tied to the store's shards. `tail` reads the raw file and skips lines that do not decode, which the store's model of a shard (its events plus a flag for an undecodable line) cannot express.
- Summary.GetSummary: uses the corrected grouping. As written, a heading can be lost when a date comes back (see Findings).
- The as-written grouping (Summary.AddEntryAsWritten): the capacity of the day-group slice doubles on every reallocation. Go doubles it only up to 512 groups, then grows it by smaller steps rounded to its allocation size classes (512 to 853 for these groups). So beyond 512 days the model reallocates at other moments than Go does. Summary.LostHeading and Summary.ContiguousAsWritten do not depend on when that happens.
- Obsidian.UpdateFileContent: uses the corrected rebuild. As written, it adds a line break at the end of the note (see Findings).

## Findings

| source | as written | input that shows it | evidently intended | confidence | as-written member | corrected member |
|---|---|---|---|---|---|---|
| internal/usecase/summary.go:142-148 | The date index holds addresses of elements of the day-group slice. Appending a new day to a full slice moves the groups, so a heading first seen later on an earlier day is added to that day's map through a stale address. Its order is appended on the old copy only, and the heading is never rendered. | Events read as a (day 1, heading X), b (day 2), c (day 1, heading Y): Y is in day 1's map but not in its order. | Every heading of a day is listed and shown. | not executed | Summary.LostHeading | Summary.GroupedDescribes |
| internal/sync/obsidian/target.go:263-268 | Each line from the closing header on is written with its own line break, including the empty last piece that the note's final line break leaves after `strings.Split`. | The note "## wips-cli logs\n- old\n## Next\n" ends in "## Next\n\n" after the update. Each later sync adds another line break. | The rest of the note is kept as it was. The repository's own case at internal/sync/obsidian/target_test.go:56-60 expects exactly that, but compares after trimming. | not executed | Obsidian.SpliceAddsLineBreak | Obsidian.SpliceKeptKeepsRest |
| cmd/wip/tail.go:112-116 | `start = len(events) - n` whenever `len(events) > n`, so a negative n puts the start past the end, and `events[start:]` panics. | `wip tail -n -1`, even with no events. | A negative count shows nothing, or is refused. | not executed | Tail.StartAsWritten | Tail.TailStart |
