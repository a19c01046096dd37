/**
 * The catalog builder: it walks the public asset directory (categories, then
 * projects, then any depth of image files), builds one record per project
 * that holds at least one image, orders the records by category then title,
 * and answers filtered and limited queries over them.
 */
module Projects {
  import opened Wrappers
  import opened JsBuiltins
  import opened Sorting
  import opened FileTree
  import opened ProjectPaths

  /** One gallery project, as the catalog hands it to the pages. */
  datatype Project = Project(
    slug: string,
    title: string,
    category: string,
    cover: string,
    images: seq<string>,
    count: int)

  /** The options of `getProjects`; `None` stands for an absent option. */
  datatype GetProjectsOptions = GetProjectsOptions(category: Option<string>, limit: Option<int>)

  // --------------------------------------------------------- image walk

  /** The first failure of two steps taken in order, or both steps' results one after the other. */
  function Then<T>(first: Result<seq<T>, FsError>, second: Result<seq<T>, FsError>): Result<seq<T>, FsError> {
    if first.Err? then first
    else if second.Err? then second
    else Ok(first.value + second.value)
  }

  /**
   * The web paths of the image files below `dir`, in the order the walk
   * meets them: entries in listing order, each subdirectory's files where
   * the subdirectory stands. A listing that fails makes the whole walk fail.
   */
  function ImageFiles(dir: Entry, dirPath: Path): Result<seq<string>, FsError>
    decreases dir, 2, 0
  {
    match ReadDir(dir, dirPath)
    case Err(e) => Err(e)
    case Ok(entries) => ImageFilesUpTo(dir, dirPath, |entries|)
  }

  /** The walk of `ImageFiles` over the first `n` entries of `dir`. */
  function ImageFilesUpTo(dir: Entry, dirPath: Path, n: nat): Result<seq<string>, FsError>
    requires dir.Dir? && n <= |dir.children|
    decreases dir, 1, n
  {
    if n == 0 then Ok([])
    else Then(ImageFilesUpTo(dir, dirPath, n - 1), EntryFiles(dir.children[n - 1], dirPath))
  }

  /**
   * What one entry of the directory `dirPath` adds to the walk: a
   * subdirectory's own walk, an image file's web path, nothing otherwise.
   */
  function EntryFiles(entry: Entry, dirPath: Path): Result<seq<string>, FsError>
    decreases entry, 3, 0
  {
    var fullPath := dirPath + [entry.name];
    if entry.IsDirectory() then ImageFiles(entry, fullPath)
    else if entry.IsFile() && IsImageFile(entry.name) then Ok([ToWebPath(fullPath)])
    else Ok([])
  }

  /** What `collectImages` resolves to: the walk's files, sorted with the collator. */
  function SortedImages(dir: Entry, dirPath: Path, cmp: (string, string) -> int): Result<seq<string>, FsError> {
    match ImageFiles(dir, dirPath)
    case Err(e) => Err(e)
    case Ok(files) => Ok(SortBy(files, cmp))
  }

  /** Once the walk has failed, the later entries do not change its error. */
  lemma {:induction false} ImageFilesUpToErr(dir: Entry, dirPath: Path, i: nat, n: nat)
    requires dir.Dir? && i <= n <= |dir.children|
    requires ImageFilesUpTo(dir, dirPath, i).Err?
    ensures ImageFilesUpTo(dir, dirPath, n) == ImageFilesUpTo(dir, dirPath, i)
    decreases n
  {
    if n > i {
      ImageFilesUpToErr(dir, dirPath, i, n - 1);
    }
  }

  /**
   * `collectImages`: lists `dir`, recurses into each subdirectory, keeps each
   * image file's web path, then sorts the directory's list with the collator.
   * Its result is the walk's files sorted once: sorting at every level
   * gives the same list as one sort of the whole walk, because the sort is
   * stable.
   */
  method CollectImages(dir: Entry, dirPath: Path, cmp: (string, string) -> int)
    returns (r: Result<seq<string>, FsError>)
    requires IsComparator(cmp)
    ensures r == SortedImages(dir, dirPath, cmp)
    decreases dir
  {
    var listing := ReadDir(dir, dirPath);
    if listing.Err? {
      return Err(listing.error);
    }
    var entries := listing.value;
    var images: seq<string> := [];
    ghost var walked: seq<string> := [];
    for i := 0 to |entries|
      invariant ImageFilesUpTo(dir, dirPath, i) == Ok(walked)
      invariant SameTies(images, walked, cmp)
    {
      var entry := entries[i];
      var fullPath := dirPath + [entry.name];
      if entry.IsDirectory() {
        var nested := CollectImages(entry, fullPath, cmp);
        if nested.Err? {
          ImageFilesUpToErr(dir, dirPath, i + 1, |entries|);
          return nested;
        }
        ghost var flat := ImageFiles(entry, fullPath).value;
        SortByStable(flat, cmp);
        SameTiesAppend(images, walked, nested.value, flat, cmp);
        images := images + nested.value;
        walked := walked + flat;
      } else if entry.IsFile() && IsImageFile(entry.name) {
        var webPath := ToWebPath(fullPath);
        SameTiesAppend(images, walked, [webPath], [webPath], cmp);
        images := images + [webPath];
        walked := walked + [webPath];
      } else {
        assert walked + [] == walked;
      }
    }
    SortBySameTies(images, walked, cmp);
    images := SortBy(images, cmp);
    return Ok(images);
  }

  // ------------------------------------------ what the walk collects

  /**
   * `rel` is the path, starting with `e`'s own name, of an image file that
   * is `e` itself or lies at any depth below it.
   */
  ghost predicate ImagePath(e: Entry, rel: Path)
    decreases e
  {
    && rel != [] && rel[0] == e.name
    && if e.File? then |rel| == 1 && IsImageFile(e.name)
       else e.Dir? && exists k :: 0 <= k < |e.children| && ImagePath(e.children[k], rel[1..])
  }

  /** `x` is the web path of an image file that is, or lies below, `e`, which sits in directory `parent`. */
  ghost predicate EntryImage(e: Entry, parent: Path, x: string) {
    exists rel :: ImagePath(e, rel) && x == ToWebPath(parent + rel)
  }

  /** `x` is the web path of an image file at or below one of the first `n` entries of `dir`. */
  ghost predicate WalkImage(dir: Entry, dirPath: Path, n: nat, x: string)
    requires dir.Dir? && n <= |dir.children|
  {
    exists k :: 0 <= k < n && EntryImage(dir.children[k], dirPath, x)
  }

  lemma DirectoryImageBelow(dir: Entry, parent: Path, x: string)
    requires dir.Dir? && EntryImage(dir, parent, x)
    ensures WalkImage(dir, parent + [dir.name], |dir.children|, x)
  {
    var rel :| ImagePath(dir, rel) && x == ToWebPath(parent + rel);
    var k :| 0 <= k < |dir.children| && ImagePath(dir.children[k], rel[1..]);
    assert rel == [dir.name] + rel[1..];
    assert parent + rel == parent + [dir.name] + rel[1..];
    assert EntryImage(dir.children[k], parent + [dir.name], x);
  }

  lemma DirectoryImageAbove(dir: Entry, parent: Path, x: string)
    requires dir.Dir? && WalkImage(dir, parent + [dir.name], |dir.children|, x)
    ensures EntryImage(dir, parent, x)
  {
    var dirPath := parent + [dir.name];
    var k :| 0 <= k < |dir.children| && EntryImage(dir.children[k], dirPath, x);
    var rel :| ImagePath(dir.children[k], rel) && x == ToWebPath(dirPath + rel);
    var full := [dir.name] + rel;
    assert full[1..] == rel;
    assert ImagePath(dir, full);
    assert parent + full == dirPath + rel;
  }

  lemma FileImage(e: Entry, parent: Path, x: string)
    requires !e.IsDirectory()
    ensures EntryImage(e, parent, x) <==> e.IsFile() && IsImageFile(e.name) && x == ToWebPath(parent + [e.name])
  {
    if e.IsFile() && IsImageFile(e.name) && x == ToWebPath(parent + [e.name]) {
      assert ImagePath(e, [e.name]);
    }
    if EntryImage(e, parent, x) {
      var rel :| ImagePath(e, rel) && x == ToWebPath(parent + rel);
      assert rel == [e.name];
    }
  }

  lemma WalkImageStep(dir: Entry, dirPath: Path, n: nat, x: string)
    requires dir.Dir? && 0 < n <= |dir.children|
    ensures WalkImage(dir, dirPath, n, x) <==>
      WalkImage(dir, dirPath, n - 1, x) || EntryImage(dir.children[n - 1], dirPath, x)
  {
    if WalkImage(dir, dirPath, n, x) {
      var k :| 0 <= k < n && EntryImage(dir.children[k], dirPath, x);
      if k < n - 1 {
        assert WalkImage(dir, dirPath, n - 1, x);
      }
    }
  }

  /**
   * The walk over the first `n` entries collects exactly the web paths of the
   * image files at or below those entries.
   */
  lemma {:induction false} ImageFilesUpToMembers(dir: Entry, dirPath: Path, n: nat, files: seq<string>)
    requires dir.Dir? && n <= |dir.children|
    requires ImageFilesUpTo(dir, dirPath, n) == Ok(files)
    ensures forall x :: x in files <==> WalkImage(dir, dirPath, n, x)
    decreases dir, 1, n
  {
    if n > 0 {
      var walked := ImageFilesUpTo(dir, dirPath, n - 1).value;
      var added := EntryFiles(dir.children[n - 1], dirPath).value;
      assert files == walked + added;
      ImageFilesUpToMembers(dir, dirPath, n - 1, walked);
      EntryFilesMembers(dir.children[n - 1], dirPath, added);
      forall x ensures x in files <==> WalkImage(dir, dirPath, n, x) {
        WalkImageStep(dir, dirPath, n, x);
      }
    }
  }

  /** One entry adds exactly the web paths of the image files that are, or lie below, it. */
  lemma {:induction false} EntryFilesMembers(entry: Entry, dirPath: Path, files: seq<string>)
    requires EntryFiles(entry, dirPath) == Ok(files)
    ensures forall x :: x in files <==> EntryImage(entry, dirPath, x)
    decreases entry, 3, 0
  {
    if entry.IsDirectory() {
      ImageFilesMembers(entry, dirPath, files);
    } else {
      forall x ensures x in files <==> EntryImage(entry, dirPath, x) {
        FileImage(entry, dirPath, x);
      }
    }
  }

  /**
   * The walk of the directory `dir` inside `parent` finds exactly the web
   * paths of the image files at any depth below it; `collectImages` sorts
   * them, which keeps the same elements.
   */
  lemma {:induction false} ImageFilesMembers(dir: Entry, parent: Path, files: seq<string>)
    requires ImageFiles(dir, parent + [dir.name]) == Ok(files)
    ensures forall x :: x in files <==> EntryImage(dir, parent, x)
    decreases dir, 2, 0
  {
    ImageFilesUpToMembers(dir, parent + [dir.name], |dir.children|, files);
    forall x ensures x in files <==> EntryImage(dir, parent, x) {
      if EntryImage(dir, parent, x) {
        DirectoryImageBelow(dir, parent, x);
      }
      if WalkImage(dir, parent + [dir.name], |dir.children|, x) {
        DirectoryImageAbove(dir, parent, x);
      }
    }
  }

  // ---------------------------------------------- each image exactly once

  /** No element occurs twice. */
  ghost predicate AtMostOnce(s: seq<string>) {
    forall x :: multiset(s)[x] <= 1
  }

  /** Every name on the path of an image below a well-formed entry is one path component. */
  lemma {:induction false} ImagePathSlashFree(e: Entry, rel: Path)
    requires WellFormedTree(e) && ImagePath(e, rel)
    ensures SlashFree(rel)
    decreases e
  {
    if e.Dir? {
      var k :| 0 <= k < |e.children| && ImagePath(e.children[k], rel[1..]);
      ImagePathSlashFree(e.children[k], rel[1..]);
      assert rel == [e.name] + rel[1..];
    }
  }

  /**
   * The web path of an image below `e`, which sits in directory `dirPath`,
   * names `e` right after the directory's own names.
   */
  lemma EntryImageNamesEntry(e: Entry, dirPath: Path, x: string)
    requires WellFormedTree(e) && SlashFree(dirPath) && EntryImage(e, dirPath, x)
    ensures |Split(x[1..], '/')| > |dirPath| && Split(x[1..], '/')[|dirPath|] == e.name
  {
    var rel :| ImagePath(e, rel) && x == ToWebPath(dirPath + rel);
    ImagePathSlashFree(e, rel);
    var full := dirPath + rel;
    assert forall i :: 0 <= i < |full| ==> full[i] == if i < |dirPath| then dirPath[i] else rel[i - |dirPath|];
    WebPathRoundTrip(full);
  }

  /**
   * Images below two different entries of one well-formed directory have
   * different web paths, because the paths differ in the entry's name.
   */
  lemma SiblingImagesDiffer(dir: Entry, dirPath: Path, k: nat, m: nat, x: string)
    requires dir.Dir? && WellFormedTree(dir) && SlashFree(dirPath)
    requires k < m < |dir.children|
    requires EntryImage(dir.children[k], dirPath, x)
    ensures !EntryImage(dir.children[m], dirPath, x)
  {
    EntryImageNamesEntry(dir.children[k], dirPath, x);
    if EntryImage(dir.children[m], dirPath, x) {
      EntryImageNamesEntry(dir.children[m], dirPath, x);
    }
  }

  /** No image of the first `n` entries is also an image of entry `n`. */
  lemma WalkBeforeEntry(dir: Entry, dirPath: Path, n: nat, walked: seq<string>, added: seq<string>)
    requires dir.Dir? && n < |dir.children| && WellFormedTree(dir) && SlashFree(dirPath)
    requires ImageFilesUpTo(dir, dirPath, n) == Ok(walked)
    requires EntryFiles(dir.children[n], dirPath) == Ok(added)
    ensures forall x :: x in walked ==> x !in added
  {
    ImageFilesUpToMembers(dir, dirPath, n, walked);
    EntryFilesMembers(dir.children[n], dirPath, added);
    forall x | x in walked ensures x !in added {
      var k :| 0 <= k < n && EntryImage(dir.children[k], dirPath, x);
      SiblingImagesDiffer(dir, dirPath, k, n, x);
    }
  }

  lemma {:induction false} ImageFilesUpToOnce(dir: Entry, dirPath: Path, n: nat, files: seq<string>)
    requires dir.Dir? && n <= |dir.children| && WellFormedTree(dir) && SlashFree(dirPath)
    requires ImageFilesUpTo(dir, dirPath, n) == Ok(files)
    ensures AtMostOnce(files)
    decreases dir, 1, n
  {
    if n > 0 {
      var walked := ImageFilesUpTo(dir, dirPath, n - 1).value;
      var added := EntryFiles(dir.children[n - 1], dirPath).value;
      ImageFilesUpToOnce(dir, dirPath, n - 1, walked);
      EntryFilesOnce(dir.children[n - 1], dirPath, added);
      WalkThenEntryOnce(dir, dirPath, n, files);
    }
  }

  /** The induction step: the last entry adds no repeat and nothing the earlier entries found. */
  lemma WalkThenEntryOnce(dir: Entry, dirPath: Path, n: nat, files: seq<string>)
    requires dir.Dir? && 0 < n <= |dir.children| && WellFormedTree(dir) && SlashFree(dirPath)
    requires ImageFilesUpTo(dir, dirPath, n) == Ok(files)
    requires AtMostOnce(ImageFilesUpTo(dir, dirPath, n - 1).value)
    requires AtMostOnce(EntryFiles(dir.children[n - 1], dirPath).value)
    ensures AtMostOnce(files)
  {
    var walked := ImageFilesUpTo(dir, dirPath, n - 1).value;
    var added := EntryFiles(dir.children[n - 1], dirPath).value;
    assert files == walked + added;
    WalkBeforeEntry(dir, dirPath, n - 1, walked, added);
    DisjointOnce(walked, added);
  }

  lemma {:induction false} EntryFilesOnce(entry: Entry, dirPath: Path, files: seq<string>)
    requires WellFormedTree(entry) && SlashFree(dirPath)
    requires EntryFiles(entry, dirPath) == Ok(files)
    ensures AtMostOnce(files)
    decreases entry, 3, 0
  {
    if entry.IsDirectory() {
      ImageFilesOnce(entry, dirPath + [entry.name], files);
    }
  }

  lemma {:induction false} ImageFilesOnce(dir: Entry, dirPath: Path, files: seq<string>)
    requires WellFormedTree(dir) && SlashFree(dirPath)
    requires ImageFiles(dir, dirPath) == Ok(files)
    ensures AtMostOnce(files)
    decreases dir, 2, 0
  {
    ImageFilesUpToOnce(dir, dirPath, |dir.children|, files);
  }

  /** Two sequences without repeats and without a common element concatenate to one without repeats. */
  lemma DisjointOnce(a: seq<string>, b: seq<string>)
    requires AtMostOnce(a) && AtMostOnce(b)
    requires forall x :: x in a ==> x !in b
    ensures AtMostOnce(a + b)
  {
    forall x ensures multiset(a + b)[x] <= 1 {
      assert multiset(a + b)[x] == multiset(a)[x] + multiset(b)[x];
      if x in multiset(a) {
        assert x in a;
        assert x !in multiset(b);
      }
    }
  }

  /** A sequence in which nothing occurs twice has no two equal positions. */
  lemma AtMostOncePairwise(s: seq<string>)
    requires AtMostOnce(s)
    ensures forall i, j :: 0 <= i < j < |s| ==> s[i] != s[j]
  {
    forall i, j | 0 <= i < j < |s| ensures s[i] != s[j] {
      RepeatCountsTwice(s, i, j);
    }
  }

  /** An element found at two positions occurs at least twice. */
  lemma RepeatCountsTwice(s: seq<string>, i: nat, j: nat)
    requires i < j < |s|
    ensures s[i] == s[j] ==> multiset(s)[s[i]] >= 2
  {
    assert s == s[..j] + s[j..];
    assert multiset(s) == multiset(s[..j]) + multiset(s[j..]);
    assert s[..j][i] == s[i] && s[j..][0] == s[j];
    assert s[i] in multiset(s[..j]) && s[j] in multiset(s[j..]);
  }

  /**
   * In a well-formed tree `collectImages` lists every image exactly once:
   * membership is `ImageFilesMembers`, and no web path is repeated.
   */
  lemma SortedImagesDistinct(dir: Entry, dirPath: Path, cmp: (string, string) -> int, files: seq<string>)
    requires WellFormedTree(dir) && SlashFree(dirPath)
    requires SortedImages(dir, dirPath, cmp) == Ok(files)
    ensures forall i, j :: 0 <= i < j < |files| ==> files[i] != files[j]
  {
    var walked := ImageFiles(dir, dirPath).value;
    ImageFilesOnce(dir, dirPath, walked);
    assert multiset(files) == multiset(walked);
    AtMostOncePairwise(files);
  }

  // ----------------------------------------------------------- records

  /** `filter(Boolean)` on strings: drops the empty ones. */
  function NonEmpty(parts: seq<string>): (r: seq<string>)
    ensures forall i :: 0 <= i < |r| ==> r[i] != "" && r[i] in parts
    ensures forall s :: s in parts && s != "" ==> s in r
  {
    if parts == [] then []
    else (if parts[0] != "" then [parts[0]] else []) + NonEmpty(parts[1..])
  }

  /**
   * A project's slug: the non-empty slugs of category and title joined by
   * `/`, else the title's slug, else the raw title.
   */
  function ProjectSlug(category: string, title: string): string {
    SlugFromParts(Slugify(category), Slugify(title), title)
  }

  /** The slug `loadProjectsFromDisk` builds from the two slugs and the raw title. */
  function SlugFromParts(categorySlug: string, titleSlug: string, title: string): string {
    var slug := Join(NonEmpty([categorySlug, titleSlug]), '/');
    if slug != "" then slug
    else if titleSlug != "" then titleSlug
    else title
  }

  /** What one entry of the category directory `category` adds: a record for a project directory with images. */
  function ProjectEntryRecords(category: string, entry: Entry, cmp: (string, string) -> int): Result<seq<Project>, FsError> {
    if !entry.IsDirectory() then Ok([])
    else
      match SortedImages(entry, [category, entry.name], cmp)
      case Err(e) => Err(e)
      case Ok(images) =>
        if images == [] then Ok([])
        else Ok([Project(ProjectSlug(category, entry.name), entry.name, category, images[0], images, |images|)])
  }

  /** The records of the first `n` entries of the category directory `category`. */
  function CategoryRecords(category: string, entries: seq<Entry>, n: nat, cmp: (string, string) -> int): Result<seq<Project>, FsError>
    requires n <= |entries|
  {
    if n == 0 then Ok([])
    else Then(CategoryRecords(category, entries, n - 1, cmp), ProjectEntryRecords(category, entries[n - 1], cmp))
  }

  /** What one entry of the root adds: the records of a category directory. */
  function CategoryEntryRecords(entry: Entry, cmp: (string, string) -> int): Result<seq<Project>, FsError> {
    if !entry.IsDirectory() then Ok([])
    else
      match ReadDir(entry, [entry.name])
      case Err(e) => Err(e)
      case Ok(projectEntries) => CategoryRecords(entry.name, projectEntries, |projectEntries|, cmp)
  }

  /** The records of the first `n` entries of the root, in discovery order. */
  function RootRecords(entries: seq<Entry>, n: nat, cmp: (string, string) -> int): Result<seq<Project>, FsError>
    requires n <= |entries|
  {
    if n == 0 then Ok([])
    else Then(RootRecords(entries, n - 1, cmp), CategoryEntryRecords(entries[n - 1], cmp))
  }

  /** The comparator of the final sort: category first, then title. */
  function CompareProjects(a: Project, b: Project, cmp: (string, string) -> int): int {
    var byCategory := cmp(a.category, b.category);
    if byCategory != 0 then byCategory else cmp(a.title, b.title)
  }

  function ProjectOrder(cmp: (string, string) -> int): (Project, Project) -> int {
    (a: Project, b: Project) => CompareProjects(a, b, cmp)
  }

  /** What `loadProjectsFromDisk` resolves to: the discovered records, stably sorted by category then title. */
  function Catalog(root: Entry, cmp: (string, string) -> int): Result<seq<Project>, FsError> {
    match ReadDir(root, [])
    case Err(e) => Err(e)
    case Ok(entries) =>
      match RootRecords(entries, |entries|, cmp)
      case Err(e) => Err(e)
      case Ok(found) => Ok(SortBy(found, ProjectOrder(cmp)))
  }

  lemma {:induction false} CategoryRecordsErr(category: string, entries: seq<Entry>, i: nat, n: nat, cmp: (string, string) -> int)
    requires i <= n <= |entries| && CategoryRecords(category, entries, i, cmp).Err?
    ensures CategoryRecords(category, entries, n, cmp) == CategoryRecords(category, entries, i, cmp)
    decreases n
  {
    if n > i {
      CategoryRecordsErr(category, entries, i, n - 1, cmp);
    }
  }

  lemma {:induction false} RootRecordsErr(entries: seq<Entry>, i: nat, n: nat, cmp: (string, string) -> int)
    requires i <= n <= |entries| && RootRecords(entries, i, cmp).Err?
    ensures RootRecords(entries, n, cmp) == RootRecords(entries, i, cmp)
    decreases n
  {
    if n > i {
      RootRecordsErr(entries, i, n - 1, cmp);
    }
  }

  /**
   * One iteration of the inner loop of `loadProjectsFromDisk`: a project
   * directory with at least one image gives one record; anything else
   * gives none.
   */
  method LoadProject(category: string, projectEntry: Entry, cmp: (string, string) -> int)
    returns (r: Result<seq<Project>, FsError>)
    requires IsComparator(cmp)
    ensures r == ProjectEntryRecords(category, projectEntry, cmp)
  {
    if !projectEntry.IsDirectory() {
      return Ok([]);
    }
    var title := projectEntry.name;
    var images := CollectImages(projectEntry, [category, title], cmp);
    if images.Err? {
      return Err(images.error);
    }
    if images.value == [] {
      return Ok([]);
    }
    var slug := ProjectSlug(category, title);
    return Ok([Project(slug, title, category, images.value[0], images.value, |images.value|)]);
  }

  /**
   * One iteration of the outer loop of `loadProjectsFromDisk`: a category
   * directory is listed and each of its entries gives its records, in
   * listing order; anything else gives none.
   */
  method LoadCategory(categoryEntry: Entry, cmp: (string, string) -> int)
    returns (r: Result<seq<Project>, FsError>)
    requires IsComparator(cmp)
    ensures r == CategoryEntryRecords(categoryEntry, cmp)
  {
    if !categoryEntry.IsDirectory() {
      return Ok([]);
    }
    var category := categoryEntry.name;
    var listing := ReadDir(categoryEntry, [category]);
    if listing.Err? {
      return Err(listing.error);
    }
    var projectEntries := listing.value;
    var projects: seq<Project> := [];
    for j := 0 to |projectEntries|
      invariant CategoryRecords(category, projectEntries, j, cmp) == Ok(projects)
    {
      var added := LoadProject(category, projectEntries[j], cmp);
      if added.Err? {
        CategoryRecordsErr(category, projectEntries, j + 1, |projectEntries|, cmp);
        return added;
      }
      projects := projects + added.value;
    }
    return Ok(projects);
  }

  /**
   * `loadProjectsFromDisk`: lists the root, gathers the records of each
   * category directory in listing order, then sorts them by category and
   * title.
   */
  method LoadProjectsFromDisk(root: Entry, cmp: (string, string) -> int) returns (r: Result<seq<Project>, FsError>)
    requires IsComparator(cmp)
    ensures r == Catalog(root, cmp)
  {
    var listing := ReadDir(root, []);
    if listing.Err? {
      return Err(listing.error);
    }
    var categoryEntries := listing.value;
    var projects: seq<Project> := [];
    for i := 0 to |categoryEntries|
      invariant RootRecords(categoryEntries, i, cmp) == Ok(projects)
    {
      var added := LoadCategory(categoryEntries[i], cmp);
      if added.Err? {
        RootRecordsErr(categoryEntries, i + 1, |categoryEntries|, cmp);
        return added;
      }
      projects := projects + added.value;
    }
    projects := SortBy(projects, ProjectOrder(cmp));
    return Ok(projects);
  }

  // ------------------------------------------- what the catalog holds

  /**
   * `p` is the record of the project directory `e` inside the category
   * directory named `category`: the directory's own name is the title, its
   * images are its image files sorted with the collator (at least one), the
   * cover is the first of them and the count their number.
   */
  ghost predicate RecordOf(p: Project, category: string, e: Entry, cmp: (string, string) -> int) {
    && e.IsDirectory()
    && p.category == category
    && p.title == e.name
    && SortedImages(e, [category, e.name], cmp) == Ok(p.images)
    && p.images != []
    && p.cover == p.images[0]
    && p.count == |p.images|
    && p.slug == ProjectSlug(category, e.name)
  }

  /** `p` is the record of one of the project directories of the category directory `c`. */
  ghost predicate InCategory(p: Project, c: Entry, cmp: (string, string) -> int) {
    c.Dir? && RecordUpTo(p, c.name, c.children, |c.children|, cmp)
  }

  lemma ProjectEntryMembers(category: string, e: Entry, cmp: (string, string) -> int, records: seq<Project>)
    requires ProjectEntryRecords(category, e, cmp) == Ok(records)
    ensures forall p :: p in records <==> RecordOf(p, category, e, cmp)
  {
  }

  /** `p` is the record of one of the first `n` entries of the category directory `category`. */
  ghost predicate RecordUpTo(p: Project, category: string, entries: seq<Entry>, n: nat, cmp: (string, string) -> int)
    requires n <= |entries|
  {
    exists j :: 0 <= j < n && RecordOf(p, category, entries[j], cmp)
  }

  lemma RecordUpToStep(p: Project, category: string, entries: seq<Entry>, n: nat, cmp: (string, string) -> int)
    requires 0 < n <= |entries|
    ensures RecordUpTo(p, category, entries, n, cmp) <==>
      RecordUpTo(p, category, entries, n - 1, cmp) || RecordOf(p, category, entries[n - 1], cmp)
  {
    if RecordUpTo(p, category, entries, n, cmp) {
      var j :| 0 <= j < n && RecordOf(p, category, entries[j], cmp);
      if j < n - 1 {
        assert RecordUpTo(p, category, entries, n - 1, cmp);
      }
    }
  }

  lemma {:induction false} CategoryRecordsMembers(category: string, entries: seq<Entry>, n: nat, cmp: (string, string) -> int, records: seq<Project>)
    requires n <= |entries| && CategoryRecords(category, entries, n, cmp) == Ok(records)
    ensures forall p :: p in records <==> RecordUpTo(p, category, entries, n, cmp)
    decreases n
  {
    if n > 0 {
      var before := CategoryRecords(category, entries, n - 1, cmp).value;
      var added := ProjectEntryRecords(category, entries[n - 1], cmp).value;
      assert records == before + added;
      CategoryRecordsMembers(category, entries, n - 1, cmp, before);
      ProjectEntryMembers(category, entries[n - 1], cmp, added);
      forall p ensures p in records <==> RecordUpTo(p, category, entries, n, cmp) {
        RecordUpToStep(p, category, entries, n, cmp);
      }
    }
  }

  lemma CategoryEntryMembers(c: Entry, cmp: (string, string) -> int, records: seq<Project>)
    requires CategoryEntryRecords(c, cmp) == Ok(records)
    ensures forall p :: p in records <==> InCategory(p, c, cmp)
  {
    if c.Dir? {
      CategoryRecordsMembers(c.name, c.children, |c.children|, cmp, records);
    }
  }

  /** `p` is the record of a project directory of one of the first `n` entries of the root. */
  ghost predicate CategoryUpTo(p: Project, entries: seq<Entry>, n: nat, cmp: (string, string) -> int)
    requires n <= |entries|
  {
    exists i :: 0 <= i < n && InCategory(p, entries[i], cmp)
  }

  lemma CategoryUpToStep(p: Project, entries: seq<Entry>, n: nat, cmp: (string, string) -> int)
    requires 0 < n <= |entries|
    ensures CategoryUpTo(p, entries, n, cmp) <==>
      CategoryUpTo(p, entries, n - 1, cmp) || InCategory(p, entries[n - 1], cmp)
  {
    if CategoryUpTo(p, entries, n, cmp) {
      var i :| 0 <= i < n && InCategory(p, entries[i], cmp);
      if i < n - 1 {
        assert CategoryUpTo(p, entries, n - 1, cmp);
      }
    }
  }

  lemma {:induction false} RootRecordsMembers(entries: seq<Entry>, n: nat, cmp: (string, string) -> int, records: seq<Project>)
    requires n <= |entries| && RootRecords(entries, n, cmp) == Ok(records)
    ensures forall p :: p in records <==> CategoryUpTo(p, entries, n, cmp)
    decreases n
  {
    if n > 0 {
      var before := RootRecords(entries, n - 1, cmp).value;
      var added := CategoryEntryRecords(entries[n - 1], cmp).value;
      assert records == before + added;
      RootRecordsMembers(entries, n - 1, cmp, before);
      CategoryEntryMembers(entries[n - 1], cmp, added);
      forall p ensures p in records <==> CategoryUpTo(p, entries, n, cmp) {
        CategoryUpToStep(p, entries, n, cmp);
      }
    }
  }

  /**
   * Only directories become categories and projects, and every project
   * directory with at least one image becomes exactly the record `RecordOf`
   * describes: a record is in the catalog exactly when it describes a
   * project directory of a category directory of the root.
   */
  lemma CatalogMembers(root: Entry, cmp: (string, string) -> int, catalog: seq<Project>)
    requires Catalog(root, cmp) == Ok(catalog)
    ensures root.Dir?
    ensures forall p :: p in catalog <==> CategoryUpTo(p, root.children, |root.children|, cmp)
  {
    var found := RootRecords(root.children, |root.children|, cmp).value;
    RootRecordsMembers(root.children, |root.children|, cmp, found);
    SortByMembers(found, ProjectOrder(cmp));
  }

  /**
   * Every record of the catalog is well formed: at least one image, the
   * cover is the first image, the count is the number of images, the images
   * are in collator order and the slug is built from category and title.
   */
  lemma CatalogRecordsWellFormed(root: Entry, cmp: (string, string) -> int, catalog: seq<Project>)
    requires IsComparator(cmp)
    requires Catalog(root, cmp) == Ok(catalog)
    ensures forall p :: p in catalog ==>
      && p.count == |p.images| >= 1
      && p.cover == p.images[0]
      && Sorted(p.images, cmp)
      && p.slug == ProjectSlug(p.category, p.title)
  {
    CatalogMembers(root, cmp, catalog);
    forall p | p in catalog
      ensures p.count == |p.images| >= 1 && p.cover == p.images[0]
      ensures Sorted(p.images, cmp) && p.slug == ProjectSlug(p.category, p.title)
    {
      var i :| 0 <= i < |root.children| && InCategory(p, root.children[i], cmp);
      var c := root.children[i];
      var j :| 0 <= j < |c.children| && RecordOf(p, c.name, c.children[j], cmp);
      RecordWellFormed(p, c.name, c.children[j], cmp);
    }
  }

  lemma RecordWellFormed(p: Project, category: string, e: Entry, cmp: (string, string) -> int)
    requires IsComparator(cmp) && RecordOf(p, category, e, cmp)
    ensures p.count == |p.images| >= 1 && p.cover == p.images[0]
    ensures Sorted(p.images, cmp) && p.slug == ProjectSlug(p.category, p.title)
  {
    SortBySorted(ImageFiles(e, [category, e.name]).value, cmp);
  }

  // ---------------------------------------------------------- ordering

  lemma ProjectOrderAntisymmetric(cmp: (string, string) -> int, a: Project, b: Project)
    requires IsComparator(cmp)
    ensures CompareProjects(a, b, cmp) < 0 <==> CompareProjects(b, a, cmp) > 0
  {
    ComparatorFacts(cmp, a.category, b.category);
  }

  lemma ProjectOrderTransitive(cmp: (string, string) -> int, a: Project, b: Project, c: Project)
    requires IsComparator(cmp)
    requires CompareProjects(a, b, cmp) <= 0 && CompareProjects(b, c, cmp) <= 0
    ensures CompareProjects(a, c, cmp) <= 0
  {
    ComparatorFacts(cmp, a.category, b.category);
    ComparatorFacts(cmp, b.category, c.category);
    ComparatorFacts(cmp, a.category, c.category);
    assert cmp(a.category, c.category) <= 0;
    if cmp(a.category, c.category) == 0 {
      assert cmp(c.category, b.category) <= 0;
      assert cmp(a.category, b.category) == 0 && cmp(b.category, c.category) == 0;
    }
  }

  /** Ordering by category, then by title, is a comparator whenever the collator is one. */
  lemma ProjectOrderIsComparator(cmp: (string, string) -> int)
    requires IsComparator(cmp)
    ensures IsComparator(ProjectOrder(cmp))
  {
    var order := ProjectOrder(cmp);
    forall a, b ensures order(a, b) < 0 <==> order(b, a) > 0 {
      ProjectOrderAntisymmetric(cmp, a, b);
    }
    forall a, b, c | order(a, b) <= 0 && order(b, c) <= 0 ensures order(a, c) <= 0 {
      ProjectOrderTransitive(cmp, a, b, c);
    }
  }

  /** The catalog is ordered by category, and within one category by title. */
  lemma CatalogOrdered(root: Entry, cmp: (string, string) -> int, catalog: seq<Project>)
    requires IsComparator(cmp)
    requires Catalog(root, cmp) == Ok(catalog)
    ensures forall i, j :: 0 <= i < j < |catalog| ==>
      || cmp(catalog[i].category, catalog[j].category) < 0
      || (cmp(catalog[i].category, catalog[j].category) == 0 && cmp(catalog[i].title, catalog[j].title) <= 0)
  {
    ProjectOrderIsComparator(cmp);
    var found := RootRecords(root.children, |root.children|, cmp).value;
    SortBySorted(found, ProjectOrder(cmp));
    forall i, j | 0 <= i < j < |catalog|
      ensures || cmp(catalog[i].category, catalog[j].category) < 0
              || (cmp(catalog[i].category, catalog[j].category) == 0 && cmp(catalog[i].title, catalog[j].title) <= 0)
    {
      assert ProjectOrder(cmp)(catalog[i], catalog[j]) <= 0;
      ComparatorFacts(cmp, catalog[i].category, catalog[j].category);
    }
  }

  /**
   * The catalog is the discovered records rearranged (a permutation) so that
   * they are ordered, keeping the discovery order among records equal under
   * the ordering; and it is the only arrangement with both properties.
   */
  lemma CatalogIsStableSort(root: Entry, cmp: (string, string) -> int, catalog: seq<Project>, arranged: seq<Project>)
    requires IsComparator(cmp)
    requires Catalog(root, cmp) == Ok(catalog)
    ensures var found := RootRecords(root.children, |root.children|, cmp).value;
      && multiset(catalog) == multiset(found)
      && Sorted(catalog, ProjectOrder(cmp))
      && SameTies(catalog, found, ProjectOrder(cmp))
      && (Sorted(arranged, ProjectOrder(cmp)) && SameTies(arranged, found, ProjectOrder(cmp)) ==> arranged == catalog)
  {
    var found := RootRecords(root.children, |root.children|, cmp).value;
    var order := ProjectOrder(cmp);
    ProjectOrderIsComparator(cmp);
    SortBySorted(found, order);
    SortByStable(found, order);
    if Sorted(arranged, order) && SameTies(arranged, found, order) {
      forall k ensures Ties(arranged, k, order) == Ties(catalog, k, order) {
        assert Ties(arranged, k, order) == Ties(found, k, order);
      }
      SortedUnique(arranged, catalog, order);
    }
  }

  // -------------------------------------------------------------- slugs

  /**
   * The slug is the category's and the title's slugs joined by `/`, or the
   * one of them that is non-empty, or, when both are empty, the raw title.
   * The fallback to the title's slug alone can never be the one taken.
   */
  lemma SlugFromPartsCases(c: string, t: string, title: string)
    ensures SlugFromParts(c, t, title) ==
      if c != "" && t != "" then c + "/" + t
      else if c != "" then c
      else if t != "" then t
      else title
  {
    NonEmptyPair(c, t);
    if c != "" && t != "" {
      assert Join([c, t], '/') == c + "/" + Join([t], '/');
    }
  }

  lemma NonEmptyPair(c: string, t: string)
    ensures NonEmpty([c, t]) ==
      if c != "" && t != "" then [c, t]
      else if c != "" then [c]
      else if t != "" then [t]
      else []
  {
    assert [c, t][1..] == [t];
    assert [t][1..] == [];
    assert NonEmpty([t]) == (if t != "" then [t] else []) + NonEmpty([]);
  }

  lemma ProjectSlugCases(category: string, title: string)
    ensures var c, t := Slugify(category), Slugify(title);
      ProjectSlug(category, title) ==
        if c != "" && t != "" then c + "/" + t
        else if c != "" then c
        else if t != "" then t
        else title
  {
    SlugFromPartsCases(Slugify(category), Slugify(title), title);
  }

  /** Slug characters never include `/`. */
  lemma SlugHasNoSlash(s: string)
    requires IsSlug(s)
    ensures '/' !in s
  {
  }

  lemma SlugFromPartsSplit(c: string, t: string, title: string)
    requires c != "" || t != ""
    requires IsSlug(c) && IsSlug(t)
    ensures var parts := Split(SlugFromParts(c, t, title), '/');
      && parts == NonEmpty([c, t])
      && 1 <= |parts| <= 2
      && forall i :: 0 <= i < |parts| ==> parts[i] != "" && IsSlug(parts[i])
  {
    NonEmptyPair(c, t);
    SlugHasNoSlash(c);
    SlugHasNoSlash(t);
    SplitJoin(NonEmpty([c, t]), '/');
  }

  /**
   * When the category or the title has a letter or digit, the slug's
   * `/`-separated parts are one or two well-formed, non-empty slugs: the
   * non-empty ones of category and title, in that order.
   */
  lemma ProjectSlugParts(category: string, title: string)
    requires Slugify(category) != "" || Slugify(title) != ""
    ensures var parts := Split(ProjectSlug(category, title), '/');
      && parts == NonEmpty([Slugify(category), Slugify(title)])
      && 1 <= |parts| <= 2
      && forall i :: 0 <= i < |parts| ==> parts[i] != "" && IsSlug(parts[i])
  {
    SlugifyIsSlug(category);
    SlugifyIsSlug(title);
    SlugFromPartsSplit(Slugify(category), Slugify(title), title);
  }

  /** A project with a non-empty directory name always has a non-empty slug. */
  lemma ProjectSlugNonEmpty(category: string, title: string)
    requires title != ""
    ensures ProjectSlug(category, title) != ""
  {
    ProjectSlugCases(category, title);
  }

  /** Slugs are not made unique: `Road-Work` and `road work` in one category share one. */
  lemma ProjectSlugsCollide(category: string, x: string, y: string, u: string, v: string)
    requires x == "Road" && y == "Work" && u == "road" && v == "work"
    ensures ProjectSlug(category, x + "-" + y) == ProjectSlug(category, u + " " + v)
  {
    SlugCollision(x, y, u, v);
    SlugFromPartsCases(Slugify(category), Slugify(x + "-" + y), x + "-" + y);
    SlugFromPartsCases(Slugify(category), Slugify(u + " " + v), u + " " + v);
  }


  // ----------------------------------------------------------- queries

  /** The records whose lower-cased category is `wanted`, in their original order. */
  function FilterCategory(projects: seq<Project>, wanted: string): (r: seq<Project>)
    ensures forall p :: p in r <==> p in projects && Lower(p.category) == wanted
    ensures |r| <= |projects|
  {
    if projects == [] then []
    else (if Lower(projects[0].category) == wanted then [projects[0]] else []) + FilterCategory(projects[1..], wanted)
  }

  /** Filtering distributes over concatenation, so it keeps the records' relative order. */
  lemma {:induction false} FilterCategoryAppend(a: seq<Project>, b: seq<Project>, wanted: string)
    ensures FilterCategory(a + b, wanted) == FilterCategory(a, wanted) + FilterCategory(b, wanted)
    decreases |a|
  {
    if a == [] {
      assert a + b == b;
    } else {
      assert (a + b)[0] == a[0];
      assert (a + b)[1..] == a[1..] + b;
      FilterCategoryAppend(a[1..], b, wanted);
    }
  }

  function Min(a: int, b: int): int { if a < b then a else b }

  /**
   * What `getProjects` returns from the catalog: a non-empty category option
   * keeps the records whose lower-cased category equals the trimmed,
   * lower-cased option; a positive limit then keeps at most that many from
   * the front.
   */
  function Query(catalog: seq<Project>, options: GetProjectsOptions): seq<Project> {
    var filtered :=
      if options.category.Some? && options.category.value != ""
      then FilterCategory(catalog, Lower(Trim(options.category.value)))
      else catalog;
    if options.limit.Some? && options.limit.value > 0
    then filtered[..Min(options.limit.value, |filtered|)]
    else filtered
  }

  /** Without options, and with an empty category or a limit that is not positive, nothing is dropped. */
  lemma QueryNoFilter(catalog: seq<Project>, options: GetProjectsOptions)
    requires options.category.None? || options.category.value == ""
    requires options.limit.None? || options.limit.value <= 0
    ensures Query(catalog, options) == catalog
  {
  }

  /** The category filter keeps exactly the records of that category, compared without case. */
  lemma QueryCategory(catalog: seq<Project>, category: string)
    requires category != ""
    ensures forall p :: p in Query(catalog, GetProjectsOptions(Some(category), None)) <==>
      p in catalog && Lower(p.category) == Lower(Trim(category))
  {
  }

  /**
   * A category made only of whitespace still filters, on the empty string:
   * it keeps only the records whose category is empty.
   */
  lemma QueryBlankCategory(catalog: seq<Project>, category: string)
    requires category != "" && forall i :: 0 <= i < |category| ==> IsJsWhitespace(category[i])
    ensures forall p :: p in Query(catalog, GetProjectsOptions(Some(category), None)) <==>
      p in catalog && p.category == ""
  {
    TrimEmptyIff(category);
  }

  /** A positive limit keeps the first `min(limit, total)` records. */
  lemma QueryLimit(catalog: seq<Project>, limit: int)
    requires limit > 0
    ensures var r := Query(catalog, GetProjectsOptions(None, Some(limit)));
      |r| == Min(limit, |catalog|) && r == catalog[..|r|]
  {
  }

  /** With both options, the limit applies to the filtered records. */
  lemma QueryFilterThenLimit(catalog: seq<Project>, category: string, limit: int)
    ensures Query(catalog, GetProjectsOptions(Some(category), Some(limit))) ==
      Query(Query(catalog, GetProjectsOptions(Some(category), None)), GetProjectsOptions(None, Some(limit)))
  {
  }

  /** Every record a query returns is a catalog record. */
  lemma QueryWithinCatalog(catalog: seq<Project>, options: GetProjectsOptions)
    ensures forall p :: p in Query(catalog, options) ==> p in catalog
  {
  }

  /**
   * `getProjects`: loads the catalog, filters it by the category option
   * when that is non-empty, then applies a positive limit.
   */
  method GetProjects(root: Entry, cmp: (string, string) -> int, options: GetProjectsOptions)
    returns (r: Result<seq<Project>, FsError>)
    requires IsComparator(cmp)
    ensures r.Err? <==> Catalog(root, cmp).Err?
    ensures r.Err? ==> r.error == Catalog(root, cmp).error
    ensures r.Ok? ==> r.value == Query(Catalog(root, cmp).value, options)
  {
    var loaded := LoadProjectsFromDisk(root, cmp);
    if loaded.Err? {
      return Err(loaded.error);
    }
    var projects := loaded.value;
    if options.category.Some? && options.category.value != "" {
      var normalizedCategory := Lower(Trim(options.category.value));
      projects := FilterCategory(projects, normalizedCategory);
    }
    if options.limit.Some? && options.limit.value > 0 {
      projects := projects[..Min(options.limit.value, |projects|)];
    }
    return Ok(projects);
  }
}
