/**
 * The user configuration's hidden-directory list and the edits the `config hidden` commands
 * make to it. Paths arrive already made absolute; writing the file back is reported as a flag.
 */
module Config {
  import opened Wrappers
  import opened Text
  import Hidden

  predicate NoDup(s: seq<string>)
  {
    forall i, j | 0 <= i < j < |s| :: s[i] != s[j]
  }

  /** The list after adding d: unchanged when d is already listed, else d appended at the end. */
  function WithDir(dirs: seq<string>, d: string): (r: seq<string>)
  {
    if d in dirs then dirs else dirs + [d]
  }

  /** Adding keeps the earlier entries in order, lists d afterwards, and never creates a duplicate. */
  lemma WithDirSpec(dirs: seq<string>, d: string)
    ensures var r := WithDir(dirs, d);
      && d in r
      && r[..|dirs|] == dirs
      && (forall x :: x in r <==> x in dirs || x == d)
      && (NoDup(dirs) ==> NoDup(r))
  {
    var r := WithDir(dirs, d);
    assert r[..|dirs|] == dirs;
    if NoDup(dirs) && d !in dirs {
      NoDupSnoc(dirs, d);
    }
  }

  /** A list without repeats stays so when an unlisted entry is appended. */
  lemma NoDupSnoc(s: seq<string>, x: string)
    requires NoDup(s) && x !in s
    ensures NoDup(s + [x])
  {
    var r := s + [x];
    forall i, j | 0 <= i < j < |r| ensures r[i] != r[j] {
      if j == |s| {
        assert r[i] == s[i];
      }
    }
  }

  /** Dropping the last entry of a list without repeats leaves a list without repeats that does not hold that entry. */
  lemma NoDupInit(s: seq<string>, x: string)
    requires NoDup(s + [x])
    ensures NoDup(s) && x !in s
  {
    var r := s + [x];
    forall i, j | 0 <= i < j < |s| ensures s[i] != s[j] {
      assert s[i] == r[i] && s[j] == r[j];
    }
    forall i | 0 <= i < |s| ensures s[i] != x {
      assert s[i] == r[i] && x == r[|s|];
    }
  }

  /** The list without any occurrence of d, the rest in their order. */
  function WithoutDir(dirs: seq<string>, d: string): (r: seq<string>)
    ensures |r| <= |dirs|
  {
    if dirs == [] then []
    else WithoutDir(dirs[..|dirs| - 1], d) + (if dirs[|dirs| - 1] == d then [] else [dirs[|dirs| - 1]])
  }

  /** Removing drops every occurrence of d and nothing else, and keeps a duplicate-free list duplicate-free. */
  lemma {:induction false} WithoutDirSpec(dirs: seq<string>, d: string)
    ensures forall x :: x in WithoutDir(dirs, d) <==> x in dirs && x != d
    ensures d !in dirs ==> WithoutDir(dirs, d) == dirs
    ensures NoDup(dirs) ==> NoDup(WithoutDir(dirs, d))
  {
    if dirs != [] {
      var init := dirs[..|dirs| - 1];
      var last := dirs[|dirs| - 1];
      WithoutDirSpec(init, d);
      assert dirs == init + [last];
      if NoDup(dirs) {
        NoDupInit(init, last);
        if last != d {
          NoDupSnoc(WithoutDir(init, d), last);
        }
      }
    }
  }

  class Config {
    var ignorePatterns: seq<string>
    var hiddenDirectories: seq<string>

    constructor(ignorePatterns: seq<string>, hiddenDirectories: seq<string>)
      ensures this.ignorePatterns == ignorePatterns && this.hiddenDirectories == hiddenDirectories
    {
      this.ignorePatterns := ignorePatterns;
      this.hiddenDirectories := hiddenDirectories;
    }

    /**
     * AddHiddenDir: a path already listed leaves the list alone and nothing is saved; a new
     * path is appended and the configuration is saved.
     */
    method AddHiddenDir(absPath: string) returns (saved: bool)
      modifies this
      ensures saved <==> absPath !in old(hiddenDirectories)
      ensures hiddenDirectories == WithDir(old(hiddenDirectories), absPath)
      ensures ignorePatterns == old(ignorePatterns)
    {
      var i := 0;
      while i < |hiddenDirectories|
        invariant 0 <= i <= |hiddenDirectories|
        invariant absPath !in hiddenDirectories[..i]
      {
        if hiddenDirectories[i] == absPath {
          return false;
        }
        assert hiddenDirectories[..i + 1] == hiddenDirectories[..i] + [hiddenDirectories[i]];
        i := i + 1;
      }
      assert hiddenDirectories[..i] == hiddenDirectories;
      hiddenDirectories := hiddenDirectories + [absPath];
      return true;
    }

    /**
     * RemoveHiddenDir: every occurrence of the path is dropped and the configuration saved;
     * a path that is not listed is an error and the list stays as it was.
     */
    method RemoveHiddenDir(absPath: string) returns (err: Option<string>)
      modifies this
      ensures absPath !in old(hiddenDirectories) ==>
        err == Some("directory not found in hidden list: " + absPath) && hiddenDirectories == old(hiddenDirectories)
      ensures absPath in old(hiddenDirectories) ==>
        err == None && hiddenDirectories == WithoutDir(old(hiddenDirectories), absPath)
      ensures ignorePatterns == old(ignorePatterns)
    {
      var newList: seq<string> := [];
      var found := false;
      var i := 0;
      while i < |hiddenDirectories|
        invariant 0 <= i <= |hiddenDirectories|
        invariant newList == WithoutDir(hiddenDirectories[..i], absPath)
        invariant found <==> absPath in hiddenDirectories[..i]
      {
        var d := hiddenDirectories[i];
        assert hiddenDirectories[..i + 1] == hiddenDirectories[..i] + [d];
        if d == absPath {
          found := true;
        } else {
          newList := newList + [d];
        }
        i := i + 1;
      }
      assert hiddenDirectories[..i] == hiddenDirectories;
      if !found {
        return Some("directory not found in hidden list: " + absPath);
      }
      hiddenDirectories := newList;
      return None;
    }

    /** The configuration's own copy of the hidden-directory search; it agrees with the shared one. */
    method IsHiddenDir(path: string) returns (r: bool)
      ensures r == Hidden.IsHiddenDir(path, hiddenDirectories)
    {
      var i := 0;
      while i < |hiddenDirectories|
        invariant 0 <= i <= |hiddenDirectories|
        invariant Hidden.IsHiddenDir(path, hiddenDirectories) == Hidden.IsHiddenDir(path, hiddenDirectories[i..])
      {
        var hiddenDir := hiddenDirectories[i];
        if HasPrefix(path, hiddenDir) {
          if path == hiddenDir || HasPrefix(path, hiddenDir + [Hidden.Separator]) {
            return true;
          }
        }
        assert hiddenDirectories[i..][1..] == hiddenDirectories[i + 1..];
        i := i + 1;
      }
      return false;
    }
  }
}
