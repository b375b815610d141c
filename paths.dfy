/**
 * Slash-separated path helpers: Go's `filepath.Ext` and `filepath.Base`
 * as they behave on Unix, and the `pathutil` helpers `TrimExt` and
 * `FileName` that the two commands call.
 */
module Paths {
  /** No '/' occurs in `path` after position `k`. */
  ghost predicate InLastElement(path: string, k: int)
    requires 0 <= k < |path|
  {
    forall m :: k < m < |path| ==> path[m] != '/'
  }

  /**
   * filepath.Ext: the suffix that starts at the final '.' of the last path
   * element, or "" when that element has no '.'.
   */
  function Ext(path: string): (e: string)
    ensures |e| <= |path| && e == path[|path| - |e|..]
  {
    ExtFrom(path, |path|)
  }

  /** The backwards scan of filepath.Ext over `path[..i]`. */
  function ExtFrom(path: string, i: nat): (e: string)
    requires i <= |path|
    ensures |e| <= |path| && e == path[|path| - |e|..]
    decreases i
  {
    if i == 0 then ""
    else if path[i - 1] == '/' then ""
    else if path[i - 1] == '.' then path[i - 1..]
    else ExtFrom(path, i - 1)
  }

  /** The extension starts at the last '.' that no '/' follows, and is empty when there is none. */
  lemma ExtShape(path: string)
    ensures Ext(path) != "" ==> Ext(path)[0] == '.' && '/' !in Ext(path) && '.' !in Ext(path)[1..]
    ensures Ext(path) == "" <==> forall k :: 0 <= k < |path| && path[k] == '.' ==> !InLastElement(path, k)
  {
    ExtFromShape(path, |path|);
    ExtFromEmpty(path, |path|);
  }

  lemma {:induction false} ExtFromShape(path: string, i: nat)
    requires i <= |path|
    requires forall k :: i <= k < |path| ==> path[k] != '/' && path[k] != '.'
    ensures ExtFrom(path, i) != "" ==>
      ExtFrom(path, i)[0] == '.' && '/' !in ExtFrom(path, i) && '.' !in ExtFrom(path, i)[1..]
    decreases i
  {
    if i > 0 && path[i - 1] != '/' && path[i - 1] != '.' {
      ExtFromShape(path, i - 1);
    }
  }

  lemma {:induction false} ExtFromEmpty(path: string, i: nat)
    requires i <= |path|
    requires forall k :: i <= k < |path| ==> path[k] != '/' && path[k] != '.'
    ensures ExtFrom(path, i) == "" <==> forall k :: 0 <= k < |path| && path[k] == '.' ==> !InLastElement(path, k)
    decreases i
  {
    if i == 0 {
    } else if path[i - 1] == '/' {
      forall k | 0 <= k < |path| && path[k] == '.' ensures !InLastElement(path, k) {
        assert k < i - 1 && path[i - 1] == '/';
      }
    } else if path[i - 1] == '.' {
      assert InLastElement(path, i - 1);
    } else {
      ExtFromEmpty(path, i - 1);
    }
  }

  /** pathutil.TrimExt: the path without its extension. */
  function TrimExt(path: string): (t: string)
    ensures t + Ext(path) == path
  {
    path[..|path| - |Ext(path)|]
  }

  /** filepath.Base: the last element, trailing slashes dropped; "." for "" and "/" for slashes only. */
  function Base(path: string): string
  {
    if path == "" then "."
    else
      var p := TrimTrailingSlashes(path);
      if p == "" then "/" else LastElement(p, |p|)
  }

  function TrimTrailingSlashes(path: string): (p: string)
    ensures |p| <= |path| && p == path[..|p|]
    ensures p == "" || p[|p| - 1] != '/'
    ensures forall k :: |p| <= k < |path| ==> path[k] == '/'
    decreases |path|
  {
    if path != "" && path[|path| - 1] == '/' then TrimTrailingSlashes(path[..|path| - 1]) else path
  }

  /** The part of `path` after its last '/', scanning back from position `i`. */
  function LastElement(path: string, i: nat): (r: string)
    requires i <= |path|
    requires forall k :: i <= k < |path| ==> path[k] != '/'
    ensures |r| <= |path| && r == path[|path| - |r|..] && '/' !in r
    ensures |r| == |path| || path[|path| - |r| - 1] == '/'
    decreases i
  {
    if i == 0 then path
    else if path[i - 1] == '/' then path[i..]
    else LastElement(path, i - 1)
  }

  /** pathutil.FileName: the base name without its extension. */
  function FileName(path: string): string
  {
    TrimExt(Base(path))
  }

  /** A relative path's file name holds no '/'. */
  lemma FileNameHasNoSlash(path: string)
    requires path != "" && path[0] != '/'
    ensures '/' !in FileName(path)
  {
    var p := TrimTrailingSlashes(path);
    assert p != "";
    var b := Base(path);
    assert '/' !in b;
    var t := TrimExt(b);
    assert t == b[..|t|];
    assert forall k :: 0 <= k < |t| ==> t[k] == b[k];
  }

  /** A well-formed extension: empty, or '.' followed by neither '/' nor '.'. */
  ghost predicate IsExtension(ext: string) {
    ext == "" || (ext[0] == '.' && '/' !in ext && '.' !in ext[1..])
  }

  lemma ExtOfFile(name: string, ext: string)
    requires '/' !in name && '.' !in name
    requires IsExtension(ext)
    ensures Ext(name + ext) == ext
  {
    var p := name + ext;
    ExtShape(p);
    if ext == "" {
      assert p == name;
    } else {
      assert p[|name|] == '.';
      assert InLastElement(p, |name|);
      var e := Ext(p);
      var j := |p| - |e|;
      assert p[j] == e[0] == '.';
      assert j == |name|;
    }
  }

  /** The base of `dir/tail`, for a non-empty `tail` without '/', is `tail`. */
  lemma BaseOfFile(dir: string, tail: string)
    requires tail != "" && '/' !in tail
    ensures Base(dir + "/" + tail) == tail
  {
    var path := dir + "/" + tail;
    assert path[|path| - 1] == tail[|tail| - 1];
    assert TrimTrailingSlashes(path) == path;
    var r := LastElement(path, |path|);
    assert path[|dir|] == '/';
    assert forall k :: |dir| < k < |path| ==> path[k] == tail[k - |dir| - 1];
  }

  /**
   * The short name the graph uses: for `dir/name.ext` with a plain `name`,
   * FileName gives `name`.
   */
  lemma FileNameOfFile(dir: string, name: string, ext: string)
    requires name != "" && '/' !in name && '.' !in name
    requires IsExtension(ext)
    ensures FileName(dir + "/" + name + ext) == name
  {
    assert dir + "/" + name + ext == dir + "/" + (name + ext);
    BaseOfFile(dir, name + ext);
    ExtOfFile(name, ext);
  }
}
