/**
 * Node's POSIX `path.extname`: the extension of the last non-empty component of
 * a path, from its last '.' to its end. A component without a dot, one whose only
 * dot is its first character (".bashrc") and the component ".." have no extension.
 */
module Paths {
  import opened Wrappers

  /** The path without the separators it ends with. */
  function TrimTrailingSlashes(p: string): (r: string)
    ensures |r| <= |p| && r == p[..|r|]
    ensures r == [] || r[|r| - 1] != '/'
  {
    if |p| > 0 && p[|p| - 1] == '/' then TrimTrailingSlashes(p[..|p| - 1]) else p
  }

  /** The characters after the last '/' of `p`. */
  function LastComponent(p: string): (r: string)
    ensures |r| <= |p| && r == p[|p| - |r|..]
    ensures forall i :: 0 <= i < |r| ==> r[i] != '/'
  {
    if |p| == 0 || p[|p| - 1] == '/' then []
    else LastComponent(p[..|p| - 1]) + [p[|p| - 1]]
  }

  /** The index of the last '.' of `s`. */
  function LastDot(s: string): (r: Option<nat>)
    ensures r.Some? ==> r.value < |s| && s[r.value] == '.'
    ensures r.Some? ==> forall i :: r.value < i < |s| ==> s[i] != '.'
    ensures r.None? ==> forall i :: 0 <= i < |s| ==> s[i] != '.'
  {
    if |s| == 0 then None
    else if s[|s| - 1] == '.' then Some(|s| - 1)
    else LastDot(s[..|s| - 1])
  }

  function Extname(p: string): (ext: string)
    ensures ext == [] || (ext[0] == '.' && forall i :: 1 <= i < |ext| ==> ext[i] != '.' && ext[i] != '/')
  {
    var base := LastComponent(TrimTrailingSlashes(p));
    match LastDot(base)
    case None => ""
    case Some(d) => if d == 0 || base == ".." then "" else base[d..]
  }

  /** Whatever the stem, a name ending in '.' followed by a dot-free suffix has that extension. */
  lemma {:induction false} ExtnameOfName(stem: string, suffix: string)
    requires |stem| > 0
    requires forall i :: 0 <= i < |stem| ==> stem[i] != '/'
    requires forall i :: 0 <= i < |suffix| ==> suffix[i] != '/' && suffix[i] != '.'
    requires stem + "." + suffix != ".."
    ensures Extname(stem + "." + suffix) == "." + suffix
  {
    var name := stem + "." + suffix;
    if |suffix| == 0 {
      assert name[|name| - 1] == '.';
    } else {
      assert name[|name| - 1] == suffix[|suffix| - 1];
    }
    assert TrimTrailingSlashes(name) == name;
    NoSlashComponent(name);
    var d := |stem|;
    assert name[d] == '.';
    assert LastDot(name) == Some(d) by { DotFreeTail(name, d); }
    assert name[d..] == "." + suffix;
  }

  lemma {:induction false} NoSlashComponent(s: string)
    requires forall i :: 0 <= i < |s| ==> s[i] != '/'
    ensures LastComponent(s) == s
  {
    if |s| > 0 {
      NoSlashComponent(s[..|s| - 1]);
      assert s[..|s| - 1] + [s[|s| - 1]] == s;
    }
  }

  lemma {:induction false} DotFreeTail(s: string, d: nat)
    requires d < |s| && s[d] == '.'
    requires forall i :: d < i < |s| ==> s[i] != '.'
    ensures LastDot(s) == Some(d)
    decreases |s|
  {
    if d < |s| - 1 {
      DotFreeTail(s[..|s| - 1], d);
    }
  }
}
