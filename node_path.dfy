/**
 * The parts of Node's `path` module the walker uses, for POSIX paths: `join` of a directory
 * and an entry name, `basename` of a resolved path, and `extname` of an entry name.
 */
module NodePath {
  import opened Wrappers
  import opened JsText

  /** `path.join(dir, name)` for a resolved directory path and a plain entry name. */
  function PathJoin(dir: string, name: string): (p: string)
    ensures StartsWith(p, dir)
    ensures |name| <= |p| && p[|p| - |name|..] == name
  {
    if dir != [] && dir[|dir| - 1] == '/' then dir + name else dir + "/" + name
  }

  /** The index just after the last '/' in `p`, or 0 when there is none. */
  function AfterLastSlash(p: string): (i: nat)
    ensures i <= |p|
    ensures forall j :: i <= j < |p| ==> p[j] != '/'
    ensures i > 0 ==> p[i - 1] == '/'
  {
    if p == [] then 0
    else if p[|p| - 1] == '/' then |p|
    else AfterLastSlash(p[..|p| - 1])
  }

  /** `path.basename(p)` for a resolved path: the text after the last '/'. */
  function Basename(p: string): (b: string)
    ensures '/' !in b
    ensures |b| <= |p| && p[|p| - |b|..] == b
  {
    p[AfterLastSlash(p)..]
  }

  /** The index of the last '.' in `s`, if any. */
  function LastDot(s: string): (r: Option<nat>)
    ensures r.Some? ==>
              && r.value < |s| && s[r.value] == '.'
              && forall j :: r.value < j < |s| ==> s[j] != '.'
    ensures r.None? ==> '.' !in s
  {
    if s == [] then None
    else if s[|s| - 1] == '.' then Some(|s| - 1)
    else LastDot(s[..|s| - 1])
  }

  /**
   * `path.extname(name)`: the suffix from the last '.', or "" when there is no '.' after the
   * first character. (Names starting with '.' are hidden entries and never reach it.)
   */
  function Extname(name: string): (e: string)
    ensures e == "" || (StartsWith(e, ".") && |e| <= |name| && name[|name| - |e|..] == e && '.' !in e[1..])
    ensures '.' !in name ==> e == ""
  {
    match LastDot(name)
    case None => ""
    case Some(i) => if i == 0 then "" else name[i..]
  }
}
