/**
 * `path.extname` of Node's POSIX path module, applied to a directory entry's
 * name (a base name, which never contains a separator).
 */
module NodePath {

  /** The index of the last `.` in `s`, or -1 when there is none. */
  function LastDot(s: string): (r: int)
    ensures -1 <= r < |s|
    ensures r >= 0 ==> s[r] == '.'
    ensures forall j :: r < j < |s| ==> s[j] != '.'
  {
    if s == [] then -1
    else if s[|s| - 1] == '.' then |s| - 1
    else LastDot(s[..|s| - 1])
  }

  /**
   * `path.extname(name)`: from the last `.` to the end, except that a dot
   * that starts the name (".hidden") and the name ".." give "".
   */
  function ExtName(name: string): (r: string)
    ensures r == [] || r[0] == '.'
  {
    var d := LastDot(name);
    if d <= 0 || name == ".." then "" else name[d..]
  }

  /** A name without dots, or whose only dot leads it, has no extension. */
  lemma ExtNameEmpty(name: string)
    requires forall j :: 0 < j < |name| ==> name[j] != '.'
    ensures ExtName(name) == ""
  {
  }

  /**
   * A non-empty stem followed by `.` and a dot-free suffix has exactly that
   * suffix as its extension, whatever dots the stem holds.
   */
  lemma ExtNameOfSuffix(stem: string, suffix: string)
    requires stem != [] && suffix != [] && '.' !in suffix
    ensures ExtName(stem + "." + suffix) == "." + suffix
  {
    var name := stem + "." + suffix;
    var d := LastDot(name);
    assert name[|stem|] == '.';
    forall j | |stem| < j < |name| ensures name[j] != '.' {
      assert name[j] == suffix[j - |stem| - 1];
    }
    assert d == |stem|;
    assert name[d..] == "." + suffix;
  }
}
