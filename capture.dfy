/**
 * The capture use case and the context gathering it shares with the note use case: the
 * environment, the repository and the working directory are fingerprinted and saved to their
 * dictionaries, and a reference is kept for each save that succeeds; then the event is built and
 * appended. What git, the operating system, the ULID generator, the clock and the hash report
 * arrive as parameters.
 */
module Capture {
  import opened Wrappers
  import opened Text
  import opened Model
  import opened Store

  /** What `git.GetInfo` reports: the repository root ("" outside a repository) and the origin remote. */
  datatype GitInfo = GitInfo(root: string, remote: string)

  /** What `git.GetHead` reports: the branch and the abbreviated head hash. */
  datatype Head = Head(branch: string, head: string)

  /**
   * The surroundings of a capture: the environment, git's repository report (None when it
   * fails), git's head report (None when it fails; it is only asked for inside a repository), and
   * the working directory.
   */
  datatype Surroundings = Surroundings(env: EnvInfo, git: Option<GitInfo>, head: Option<Head>, wd: string)

  /**
   * The object a git report is stored as in the "repos" dictionary. The report's type has no
   * field tags, so its keys are the Go field names and there is no "name" key.
   */
  function GitInfoValue(g: GitInfo): (v: Value)
    ensures v.Obj? && v.fields.Keys == {"Root", "Remote"}
    ensures v.fields["Root"] == Str(g.root) && v.fields["Remote"] == Str(g.remote)
  {
    Obj(map["Root" := Str(g.root), "Remote" := Str(g.remote)])
  }

  /** The text a repository is fingerprinted by: its remote when it has one, else its root. */
  function RepoKey(g: GitInfo): (r: string)
    ensures g.remote != "" ==> r == g.remote
    ensures g.remote == "" ==> r == g.root
  {
    if g.remote != "" then g.remote else g.root
  }

  /** The text the environment is fingerprinted by: host name then user name. */
  function EnvKey(e: EnvInfo): string
  {
    e.host + e.user
  }

  /** Whether the surroundings are inside a repository: git answered and reported a root. */
  predicate InRepo(s: Surroundings)
  {
    s.git.Some? && s.git.value.root != ""
  }

  /** Whether SaveDict on dictionary `name` succeeds: its file decodes (a missing file counts as empty). */
  predicate Decodes(dicts: map<string, map<string, Value>>, corruptDicts: set<string>, name: string)
  {
    !(name in dicts && name in corruptDicts)
  }

  /** The dictionaries after one SaveDict: saved when the file decodes, unchanged otherwise. */
  function TrySave(dicts: map<string, map<string, Value>>, corruptDicts: set<string>, name: string, key: string, v: Value): map<string, map<string, Value>>
  {
    if Decodes(dicts, corruptDicts, name) then Saved(dicts, name, key, v) else dicts
  }

  /** The dictionaries after the three saves, in the order the use cases make them: "env", "repos" (inside a repository), "dirs". */
  function GatheredDicts(dicts: map<string, map<string, Value>>, corruptDicts: set<string>, s: Surroundings, hashId: string -> string): map<string, map<string, Value>>
  {
    var d1 := TrySave(dicts, corruptDicts, "env", hashId(EnvKey(s.env)), EnvValue(s.env));
    var d2 := if InRepo(s) then TrySave(d1, corruptDicts, "repos", hashId(RepoKey(s.git.value)), GitInfoValue(s.git.value)) else d1;
    TrySave(d2, corruptDicts, "dirs", hashId(s.wd), Str(s.wd))
  }

  /**
   * The context the use cases build: each fingerprint is kept when its save succeeded; branch
   * and head are taken from git inside a repository when git answers, and are empty otherwise.
   */
  function GatheredContext(dicts: map<string, map<string, Value>>, corruptDicts: set<string>, s: Surroundings, hashId: string -> string): Context
  {
    var inRepo := InRepo(s);
    var withHead := inRepo && s.head.Some?;
    Context(
      if inRepo && Decodes(dicts, corruptDicts, "repos") then Some(hashId(RepoKey(s.git.value))) else None,
      if Decodes(dicts, corruptDicts, "dirs") then Some(hashId(s.wd)) else None,
      if Decodes(dicts, corruptDicts, "env") then Some(hashId(EnvKey(s.env))) else None,
      if withHead then s.head.value.branch else "",
      if withHead then s.head.value.head else "")
  }

  /** A save leaves every other dictionary as it was. */
  lemma TrySaveOthers(dicts: map<string, map<string, Value>>, corruptDicts: set<string>, name: string, key: string, v: Value, other: string)
    requires other != name
    ensures DictOf(TrySave(dicts, corruptDicts, name, key, v), other) == DictOf(dicts, other)
    ensures Decodes(TrySave(dicts, corruptDicts, name, key, v), corruptDicts, other) == Decodes(dicts, corruptDicts, other)
  {
  }

  /**
   * Each dictionary changes only by the first-write insertion of its own key: every entry it had
   * is kept, and a new entry appears only under the fingerprint saved to it.
   */
  lemma GatheredDictsKeep(dicts: map<string, map<string, Value>>, corruptDicts: set<string>, s: Surroundings, hashId: string -> string, name: string)
    ensures var r := GatheredDicts(dicts, corruptDicts, s, hashId);
      && (forall k | k in DictOf(dicts, name) :: k in DictOf(r, name) && DictOf(r, name)[k] == DictOf(dicts, name)[k])
      && (name !in {"env", "repos", "dirs"} ==> DictOf(r, name) == DictOf(dicts, name))
      && (!Decodes(dicts, corruptDicts, name) ==> DictOf(r, name) == DictOf(dicts, name))
  {
    var d1 := TrySave(dicts, corruptDicts, "env", hashId(EnvKey(s.env)), EnvValue(s.env));
    var d2 := if InRepo(s) then TrySave(d1, corruptDicts, "repos", hashId(RepoKey(s.git.value)), GitInfoValue(s.git.value)) else d1;
    if name != "env" {
      TrySaveOthers(dicts, corruptDicts, "env", hashId(EnvKey(s.env)), EnvValue(s.env), name);
    }
    if InRepo(s) && name != "repos" {
      TrySaveOthers(d1, corruptDicts, "repos", hashId(RepoKey(s.git.value)), GitInfoValue(s.git.value), name);
    }
    if name != "dirs" {
      TrySaveOthers(d2, corruptDicts, "dirs", hashId(s.wd), Str(s.wd), name);
    }
  }

  /**
   * Every reference the context carries resolves in the dictionaries after the saves; the
   * directory reference resolves to the working directory unless its fingerprint already named
   * another entry (first write wins).
   */
  lemma GatheredContextResolves(dicts: map<string, map<string, Value>>, corruptDicts: set<string>, s: Surroundings, hashId: string -> string)
    ensures var r := GatheredDicts(dicts, corruptDicts, s, hashId);
      var ctx := GatheredContext(dicts, corruptDicts, s, hashId);
      && (ctx.envId.Some? ==> ctx.envId.value in DictOf(r, "env"))
      && (ctx.repoId.Some? ==> ctx.repoId.value in DictOf(r, "repos"))
      && (ctx.cwdId.Some? ==> ctx.cwdId.value in DictOf(r, "dirs"))
      && (ctx.cwdId.Some? && hashId(s.wd) !in DictOf(dicts, "dirs") ==> DictOf(r, "dirs")[ctx.cwdId.value] == Str(s.wd))
  {
    var d1 := TrySave(dicts, corruptDicts, "env", hashId(EnvKey(s.env)), EnvValue(s.env));
    var d2 := if InRepo(s) then TrySave(d1, corruptDicts, "repos", hashId(RepoKey(s.git.value)), GitInfoValue(s.git.value)) else d1;
    GatheredDictsKeep(dicts, corruptDicts, s, hashId, "env");
    GatheredDictsKeep(dicts, corruptDicts, s, hashId, "repos");
    TrySaveOthers(dicts, corruptDicts, "env", hashId(EnvKey(s.env)), EnvValue(s.env), "repos");
    TrySaveOthers(dicts, corruptDicts, "env", hashId(EnvKey(s.env)), EnvValue(s.env), "dirs");
    if InRepo(s) {
      TrySaveOthers(d1, corruptDicts, "repos", hashId(RepoKey(s.git.value)), GitInfoValue(s.git.value), "dirs");
    }
  }

  /**
   * A repository saved by the use cases carries no "name", so an event that references it is
   * never headed by the repository: the heading falls back to its directory.
   */
  lemma SavedRepoUnnamed(dicts: map<string, map<string, Value>>, corruptDicts: set<string>, s: Surroundings, hashId: string -> string, e: Event)
    requires "repos" !in dicts
    requires e.ctx == GatheredContext(dicts, corruptDicts, s, hashId)
    ensures RepoName(e, DictOf(GatheredDicts(dicts, corruptDicts, s, hashId), "repos")).None?
    ensures var r := GatheredDicts(dicts, corruptDicts, s, hashId);
      e.ctx.cwdId.Some? && hashId(s.wd) !in DictOf(dicts, "dirs") ==>
      GroupName(e, DictOf(r, "dirs"), DictOf(r, "repos")) == FolderMark + s.wd
  {
    var d1 := TrySave(dicts, corruptDicts, "env", hashId(EnvKey(s.env)), EnvValue(s.env));
    TrySaveOthers(dicts, corruptDicts, "env", hashId(EnvKey(s.env)), EnvValue(s.env), "repos");
    var d2 := if InRepo(s) then TrySave(d1, corruptDicts, "repos", hashId(RepoKey(s.git.value)), GitInfoValue(s.git.value)) else d1;
    var r := GatheredDicts(dicts, corruptDicts, s, hashId);
    TrySaveOthers(d2, corruptDicts, "dirs", hashId(s.wd), Str(s.wd), "repos");
    assert DictOf(r, "repos") == DictOf(d2, "repos");
    var repos := DictOf(r, "repos");
    forall k | k in repos ensures !(repos[k].Obj? && "name" in repos[k].fields) {
      assert InRepo(s) && k == hashId(RepoKey(s.git.value));
    }
    GatheredContextResolves(dicts, corruptDicts, s, hashId);
  }

  /** One save of a use case: the fingerprint is kept as a reference when the save succeeds. */
  method SaveRef(store: FileStore, name: string, key: string, v: Value) returns (id: Option<string>)
    requires store.Valid()
    modifies store
    ensures store.Valid()
    ensures id == (if Decodes(old(store.dicts), store.corruptDicts, name) then Some(key) else None)
    ensures store.dicts == TrySave(old(store.dicts), store.corruptDicts, name, key, v)
    ensures store.shards == old(store.shards) && store.corrupt == old(store.corrupt) && store.corruptDicts == old(store.corruptDicts)
  {
    var err := store.SaveDict(name, key, v);
    id := if err.None? then Some(key) else None;
  }

  /**
   * The context gathering of the use cases: the three saves in order, each reference kept when
   * its save succeeds, branch and head when git reports them.
   */
  method GatherContext(store: FileStore, s: Surroundings, hashId: string -> string) returns (ctx: Context)
    requires store.Valid()
    modifies store
    ensures store.Valid()
    ensures ctx == GatheredContext(old(store.dicts), store.corruptDicts, s, hashId)
    ensures store.dicts == GatheredDicts(old(store.dicts), store.corruptDicts, s, hashId)
    ensures store.shards == old(store.shards) && store.corrupt == old(store.corrupt) && store.corruptDicts == old(store.corruptDicts)
  {
    ghost var dicts := store.dicts;
    ctx := EmptyContext;

    var envId := SaveRef(store, "env", hashId(s.env.host + s.env.user), EnvValue(s.env));
    ctx := ctx.(envId := envId);
    ghost var d1 := store.dicts;
    TrySaveOthers(dicts, store.corruptDicts, "env", hashId(EnvKey(s.env)), EnvValue(s.env), "repos");
    TrySaveOthers(dicts, store.corruptDicts, "env", hashId(EnvKey(s.env)), EnvValue(s.env), "dirs");

    if s.git.Some? && s.git.value.root != "" {
      var repoInfo := s.git.value;
      var keyContent := repoInfo.root;
      if repoInfo.remote != "" {
        keyContent := repoInfo.remote;
      }
      var repoId := SaveRef(store, "repos", hashId(keyContent), GitInfoValue(repoInfo));
      ctx := ctx.(repoId := repoId);
      TrySaveOthers(d1, store.corruptDicts, "repos", hashId(keyContent), GitInfoValue(repoInfo), "dirs");
      if s.head.Some? {
        ctx := ctx.(branch := s.head.value.branch, head := s.head.value.head);
      }
    }

    var cwdId := SaveRef(store, "dirs", hashId(s.wd), Str(s.wd));
    ctx := ctx.(cwdId := cwdId);
  }

  const GitCommitEventType: string := "git-commit"

  /** Why a capture failed. */
  datatype CaptureError =
    | UnknownEventType(eventType: string)
    | ContentFailed(cause: string)
    | AppendFailed(err: StoreError)

  /** The event a capture appends: a git commit whose content is the provider's output, trimmed. */
  function CapturedEvent(id: string, now: int, output: string, ctx: Context): (e: Event)
    ensures e.kind == GitCommit && e.content == TrimSpace(output) && e.ctx == ctx && e.ts == now && e.id == id
  {
    Event(id, now, GitCommit, TrimSpace(output), ctx, "")
  }

  /**
   * CaptureEvent: an event type other than "git-commit", or a failing content provider, is an
   * error before anything is written. Otherwise the context is gathered and saved, and the
   * trimmed output appended as a git-commit event; an append that finds the shard busy is an
   * error, after the dictionary saves.
   */
  method CaptureEvent(store: FileStore, eventType: string, s: Surroundings, output: Result<string, string>,
                      hashId: string -> string, newId: string, now: int, busy: bool) returns (err: Option<CaptureError>)
    requires store.Valid()
    modifies store
    ensures store.Valid()
    ensures eventType != GitCommitEventType ==>
      err == Some(UnknownEventType(eventType)) && store.shards == old(store.shards) && store.dicts == old(store.dicts)
    ensures eventType == GitCommitEventType && output.Err? ==>
      err == Some(ContentFailed(output.error)) && store.shards == old(store.shards) && store.dicts == old(store.dicts)
    ensures eventType == GitCommitEventType && output.Ok? ==>
      var ctx := GatheredContext(old(store.dicts), store.corruptDicts, s, hashId);
      && store.dicts == GatheredDicts(old(store.dicts), store.corruptDicts, s, hashId)
      && (busy ==> err == Some(AppendFailed(LockBusy)) && store.shards == old(store.shards))
      && (!busy ==> err == None && store.shards == Appended(old(store.shards), CapturedEvent(newId, now, output.value, ctx)))
    ensures store.corrupt == old(store.corrupt) && store.corruptDicts == old(store.corruptDicts)
  {
    if eventType != GitCommitEventType {
      return Some(UnknownEventType(eventType));
    }
    if output.Err? {
      return Some(ContentFailed(output.error));
    }
    var content := output.value;
    var ctx := GatherContext(store, s, hashId);
    var event := Event(newId, now, GitCommit, TrimSpace(content), ctx, "");
    var appendErr := store.AppendEvent(event, busy);
    if appendErr.Some? {
      return Some(AppendFailed(appendErr.value));
    }
    return None;
  }
}
