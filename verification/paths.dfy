/** The parts of `pathlib.Path` the validator relies on: the final component
    (`name`), its extension (`suffix`), and lower-casing of that extension. */
module Paths {

  /** The index of the last `c` in `s`, or -1 (Python's `str.rfind`). */
  function RFind(s: string, c: char): (r: int)
    ensures -1 <= r < |s|
    ensures r >= 0 ==> s[r] == c
    ensures forall j :: r < j < |s| ==> s[j] != c
  {
    if |s| == 0 then -1
    else if s[|s| - 1] == c then |s| - 1
    else RFind(s[..|s| - 1], c)
  }

  /** The final path component: everything after the last separator. */
  function Name(path: string): (name: string)
    ensures |name| <= |path| && name == path[|path| - |name|..]
    ensures forall k :: 0 <= k < |name| ==> name[k] != '/'
    ensures |name| == |path| || path[|path| - |name| - 1] == '/'
  {
    path[RFind(path, '/') + 1..]
  }

  /** The suffix of one path component: from its last dot on, provided that
      dot is neither the first nor the last character; otherwise empty. */
  function NameSuffix(name: string): (ext: string)
    ensures ext == [] || (|ext| >= 2 && ext[0] == '.')
    ensures forall k :: 1 <= k < |ext| ==> ext[k] != '.'
    ensures |ext| < |name| || ext == []
    ensures ext == name[|name| - |ext|..]
  {
    var i := RFind(name, '.');
    if 0 < i < |name| - 1 then name[i..] else []
  }

  /** `Path.suffix`: the suffix of the final component. */
  function Suffix(path: string): (ext: string)
    ensures ext == [] || (|ext| >= 2 && ext[0] == '.')
    ensures forall k :: 1 <= k < |ext| ==> ext[k] != '.' && ext[k] != '/'
    ensures |ext| <= |path| && ext == path[|path| - |ext|..]
    ensures ext != [] ==> |ext| < |Name(path)|
  {
    var name := Name(path);
    var ext := NameSuffix(name);
    TailOfTail(path, name, |name| - |ext|);
    ext
  }

  function LowerChar(c: char): (d: char)
    ensures 'A' <= c <= 'Z' ==> 'a' <= d <= 'z' && (d as int) - (c as int) == 32
    ensures !('A' <= c <= 'Z') ==> d == c
  {
    if 'A' <= c <= 'Z' then ((c as int) + 32) as char else c
  }

  /** A tail of a tail of a sequence is a tail of that sequence. */
  lemma TailOfTail<T>(s: seq<T>, t: seq<T>, j: nat)
    requires |t| <= |s| && t == s[|s| - |t|..]
    requires j <= |t|
    ensures t[j..] == s[|s| - |t| + j..]
  {
  }

  /** `str.lower` restricted to ASCII letters. */
  function Lower(s: string): (t: string)
    ensures |t| == |s|
    ensures forall k :: 0 <= k < |s| ==> t[k] == LowerChar(s[k])
  {
    seq(|s|, k requires 0 <= k < |s| => LowerChar(s[k]))
  }

  /** Appending an extension to a path whose final component is non-empty
      makes that extension the path's suffix. */
  lemma SuffixOfAppended(stem: string, ext: string)
    requires |stem| > 0 && stem[|stem| - 1] != '/'
    requires |ext| >= 2 && ext[0] == '.'
    requires forall k :: 1 <= k < |ext| ==> ext[k] != '.' && ext[k] != '/'
    ensures Suffix(stem + ext) == ext
  {
    var name := Name(stem + ext);
    NameOfAppended(stem, ext);
    NameSuffixOfTail(name, ext);
  }

  /** The final component of `stem + ext` extends past `ext` and ends with it. */
  lemma NameOfAppended(stem: string, ext: string)
    requires |stem| > 0 && stem[|stem| - 1] != '/'
    requires forall k :: 0 <= k < |ext| ==> ext[k] != '/'
    ensures |Name(stem + ext)| > |ext|
    ensures Name(stem + ext)[|Name(stem + ext)| - |ext|..] == ext
  {
    var path := stem + ext;
    var name := Name(path);
    assert forall k :: |stem| <= k < |path| ==> path[k] == ext[k - |stem|];
    assert forall k :: |stem| - 1 <= k < |path| ==> path[k] != '/';
    assert |name| > |ext|;
    TailOfTail(path, name, |name| - |ext|);
    assert path[|path| - |ext|..] == ext;
  }

  /** A component longer than `ext` and ending with it, where `ext` is a dot
      followed by dot-free characters, has `ext` as its suffix. */
  lemma NameSuffixOfTail(name: string, ext: string)
    requires |name| > |ext| && name[|name| - |ext|..] == ext
    requires |ext| >= 2 && ext[0] == '.'
    requires forall k :: 1 <= k < |ext| ==> ext[k] != '.'
    ensures NameSuffix(name) == ext
  {
    assert name[|name| - |ext|] == '.';
    assert forall j :: |name| - |ext| < j < |name| ==> name[j] == ext[j - (|name| - |ext|)];
    assert RFind(name, '.') == |name| - |ext|;
  }

  /** A hidden file (a final component that starts with its only dot, such
      as ".shp") has no suffix. */
  lemma HiddenNameHasNoSuffix(dir: string, name: string)
    requires |name| >= 2 && name[0] == '.'
    requires forall k :: 0 <= k < |name| ==> name[k] != '/'
    requires forall k :: 1 <= k < |name| ==> name[k] != '.'
    ensures Name(dir + "/" + name) == name
    ensures Suffix(dir + "/" + name) == []
  {
    var path := dir + "/" + name;
    assert forall k :: 0 <= k < |name| ==> path[|dir| + 1 + k] == name[k];
    assert path[|dir|] == '/';
    assert Name(path) == name;
  }
}
