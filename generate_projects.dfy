/**
 * The build script that writes the catalogue to a JSON file. Its helpers
 * and its loader repeat the library's line for line, so the catalogue it
 * writes is `Projects.Catalog` of the same tree; only what `main` does with
 * it is modelled here.
 */
module GenerateProjects {
  import opened Wrappers
  import opened FileTree
  import Sorting
  import Projects

  /** What a run of the script leaves behind: the records written, if any, and the exit code. */
  datatype Outcome = Outcome(written: Option<seq<Projects.Project>>, exitCode: int)

  /**
   * `main`: load the catalogue, create the output directory and write the
   * file. Any failure on the way (a listing, `mkdir` or `writeFile`) is
   * caught: nothing is written and the exit code becomes 1. Whether the
   * directory and the file can be written is the parameter `writeSucceeds`.
   */
  method Generate(root: Entry, cmp: (string, string) -> int, writeSucceeds: bool) returns (r: Outcome)
    requires Sorting.IsComparator(cmp)
    ensures r.exitCode == 0 <==> r.written.Some?
    ensures r.exitCode == 0 || r.exitCode == 1
    ensures r.written.Some? <==> Projects.Catalog(root, cmp).Ok? && writeSucceeds
    ensures r.written.Some? ==> r.written.value == Projects.Catalog(root, cmp).value
  {
    var loaded := Projects.LoadProjectsFromDisk(root, cmp);
    if loaded.Err? || !writeSucceeds {
      return Outcome(None, 1);
    }
    return Outcome(Some(loaded.value), 0);
  }
}
