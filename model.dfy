/**
 * The records the store keeps: events with their captured context, and the values of the
 * three dictionaries ("env", "repos", "dirs") that map fingerprints to what they stand for.
 * Dictionary values are the shapes a decoded JSON object can hold as far as the readers care:
 * a string, a nested object, or anything else.
 */
module Model {
  import opened Wrappers

  const Note: string := "note"
  const GitCommit: string := "git_commit"
  const Undo: string := "undo"

  /** The references an event carries; an absent reference is None, an absent branch or head is "". */
  datatype Context = Context(
    repoId: Option<string>,
    cwdId: Option<string>,
    envId: Option<string>,
    branch: string,
    head: string)

  const EmptyContext: Context := Context(None, None, None, "", "")

  /** One record of the event log; `ts` is a wall-clock timestamp in nanoseconds (see Clock). */
  datatype Event = Event(id: string, ts: int, kind: string, content: string, ctx: Context, meta: string)

  datatype RepoInfo = RepoInfo(name: string, root: string, remote: string)

  datatype EnvInfo = EnvInfo(host: string, os: string, arch: string, user: string)

  datatype Value = Str(s: string) | Obj(fields: map<string, Value>) | Other

  /** The object a RepoInfo is stored as in the "repos" dictionary; "remote" is omitted when empty. */
  function RepoValue(r: RepoInfo): (v: Value)
    ensures v.Obj? && "name" in v.fields && "root" in v.fields
    ensures v.fields["name"] == Str(r.name) && v.fields["root"] == Str(r.root)
    ensures "remote" in v.fields <==> r.remote != ""
  {
    var base := map["name" := Str(r.name), "root" := Str(r.root)];
    Obj(if r.remote == "" then base else base["remote" := Str(r.remote)])
  }

  /** The object an EnvInfo is stored as in the "env" dictionary. */
  function EnvValue(e: EnvInfo): (v: Value)
    ensures v.Obj? && v.fields.Keys == {"host", "os", "arch", "user"}
  {
    Obj(map["host" := Str(e.host), "os" := Str(e.os), "arch" := Str(e.arch), "user" := Str(e.user)])
  }

  /** The directory an event was recorded in: the "dirs" entry of its cwd reference, when that is a string. */
  function DirEntry(e: Event, dirs: map<string, Value>): (r: Option<string>)
    ensures r.Some? <==> e.ctx.cwdId.Some? && e.ctx.cwdId.value in dirs && dirs[e.ctx.cwdId.value].Str?
  {
    match e.ctx.cwdId
    case Some(c) => if c in dirs && dirs[c].Str? then Some(dirs[c].s) else None
    case None => None
  }

  /** The directory path the filters test: the resolved entry, or "" when it cannot be resolved. */
  function DirPath(e: Event, dirs: map<string, Value>): (r: string)
    ensures DirEntry(e, dirs).Some? ==> r == DirEntry(e, dirs).value
    ensures DirEntry(e, dirs).None? ==> r == ""
  {
    match DirEntry(e, dirs)
    case Some(p) => p
    case None => ""
  }

  /** The "name" string of the "repos" entry of an event's repo reference, when there is one. */
  function RepoName(e: Event, repos: map<string, Value>): (r: Option<string>)
    ensures r.Some? <==>
      && e.ctx.repoId.Some? && e.ctx.repoId.value in repos && repos[e.ctx.repoId.value].Obj?
      && "name" in repos[e.ctx.repoId.value].fields && repos[e.ctx.repoId.value].fields["name"].Str?
  {
    match e.ctx.repoId
    case Some(k) =>
      if k in repos && repos[k].Obj? && "name" in repos[k].fields && repos[k].fields["name"].Str?
      then Some(repos[k].fields["name"].s)
      else None
    case None => None
  }

  const FolderMark: string := "📁 "
  const Unknown: string := "(unknown)"

  /**
   * The heading an event is grouped under in summaries and daily notes: "@" and the repository
   * name when the repository is known, else the folder mark and the directory, else "(unknown)".
   */
  function GroupName(e: Event, dirs: map<string, Value>, repos: map<string, Value>): (r: string)
    ensures RepoName(e, repos).Some? ==> r == "@" + RepoName(e, repos).value
    ensures RepoName(e, repos).None? && DirEntry(e, dirs).Some? ==> r == FolderMark + DirEntry(e, dirs).value
    ensures RepoName(e, repos).None? && DirEntry(e, dirs).None? ==> r == Unknown
    ensures r != ""
  {
    match RepoName(e, repos)
    case Some(n) => "@" + n
    case None =>
      match DirEntry(e, dirs)
      case Some(p) => FolderMark + p
      case None => Unknown
  }
}
