/**
 * The hidden-directory test shared by the summary, tail and config commands: a path is hidden
 * when it is one of the hidden directories or lies below one of them. Paths use '/' as the
 * separator.
 */
module Hidden {
  import opened Text

  const Separator: char := '/'

  /** path is the directory d itself or lies below it. */
  predicate Under(path: string, d: string)
  {
    path == d || HasPrefix(path, d + [Separator])
  }

  /** The search over the hidden list, in list order, stopping at the first directory that covers the path. */
  function IsHiddenDir(path: string, hiddenDirs: seq<string>): (r: bool)
    ensures hiddenDirs == [] ==> !r
  {
    if hiddenDirs == [] then false
    else
      var d := hiddenDirs[0];
      if HasPrefix(path, d) && (path == d || HasPrefix(path, d + [Separator])) then true
      else IsHiddenDir(path, hiddenDirs[1..])
  }

  /** Hidden exactly when some entry of the list, wherever it stands, covers the path. */
  lemma {:induction false} IsHiddenDirExists(path: string, hiddenDirs: seq<string>)
    ensures IsHiddenDir(path, hiddenDirs) <==> exists i | 0 <= i < |hiddenDirs| :: Under(path, hiddenDirs[i])
  {
    if hiddenDirs != [] {
      var d := hiddenDirs[0];
      IsHiddenDirExists(path, hiddenDirs[1..]);
      if HasPrefix(path, d + [Separator]) {
        assert path[..|d|] == (d + [Separator])[..|d|] == d;
      }
      if exists i | 0 <= i < |hiddenDirs| :: Under(path, hiddenDirs[i]) {
        var i :| 0 <= i < |hiddenDirs| && Under(path, hiddenDirs[i]);
        if i > 0 {
          assert Under(path, hiddenDirs[1..][i - 1]);
        }
      }
      if exists i | 0 <= i < |hiddenDirs| - 1 :: Under(path, hiddenDirs[1..][i]) {
        var i :| 0 <= i < |hiddenDirs| - 1 && Under(path, hiddenDirs[1..][i]);
        assert hiddenDirs[i + 1] == hiddenDirs[1..][i];
      }
    }
  }

  /** Only the set of hidden directories matters, not their order or repetitions. */
  lemma HiddenOrderFree(path: string, a: seq<string>, b: seq<string>)
    requires forall d :: d in a <==> d in b
    ensures IsHiddenDir(path, a) == IsHiddenDir(path, b)
  {
    IsHiddenDirExists(path, a);
    IsHiddenDirExists(path, b);
    if exists i | 0 <= i < |a| :: Under(path, a[i]) {
      var i :| 0 <= i < |a| && Under(path, a[i]);
      assert a[i] in b;
    }
    if exists i | 0 <= i < |b| :: Under(path, b[i]) {
      var i :| 0 <= i < |b| && Under(path, b[i]);
      assert b[i] in a;
    }
  }

  /** A directory whose name merely starts with a hidden directory's name is not below it. */
  lemma SiblingPrefixNotHidden()
    ensures !IsHiddenDir("/home/user/secret-other", ["/home/user/secret"])
    ensures IsHiddenDir("/home/user/secret", ["/home/user/secret"])
    ensures IsHiddenDir("/home/user/secret/nested", ["/home/user/secret"])
    ensures IsHiddenDir("/home/user/private/file", ["/home/user/secret", "/home/user/private"])
  {
    var sibling := "/home/user/secret-other";
    assert sibling[..18] != "/home/user/secret/" by {
      assert sibling[17] == '-';
    }
    assert "/home/user/secret/nested"[..18] == "/home/user/secret/";
    assert "/home/user/private/file"[..19] == "/home/user/private/";
    assert "/home/user/private/file"[..17] != "/home/user/secret" by {
      assert "/home/user/private/file"[11] == 'p';
    }
  }
}
