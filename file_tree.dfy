/**
 * The part of the filesystem the catalog builder reads: a tree of directory
 * entries, in `readdir` order, below the public asset directory.
 */
module FileTree {
  import opened Wrappers

  /** A path below the public directory, as its sequence of entry names. */
  type Path = seq<string>

  /**
   * An entry of a directory listing (a `Dirent`). `UnreadableDir` is a
   * directory whose listing fails (permission denied, removed meanwhile);
   * `Other` is anything that is neither a regular file nor a directory, such
   * as a symbolic link.
   */
  datatype Entry =
    | File(name: string)
    | Dir(name: string, children: seq<Entry>)
    | UnreadableDir(name: string)
    | Other(name: string)
  {
    /** `Dirent.isDirectory()` */
    predicate IsDirectory() { Dir? || UnreadableDir? }

    /** `Dirent.isFile()` */
    predicate IsFile() { File? }
  }

  /** Every name of the path is a single component: none contains the separator `/`. */
  ghost predicate SlashFree(p: Path) {
    forall i :: 0 <= i < |p| ==> '/' !in p[i]
  }

  /**
   * What a real file system guarantees of every listing in the tree: a name
   * is one path component, and no two entries of a directory share a name.
   */
  ghost predicate WellFormedTree(e: Entry)
    decreases e
  {
    && '/' !in e.name
    && (e.Dir? ==>
          && (forall i, j :: 0 <= i < j < |e.children| ==> e.children[i].name != e.children[j].name)
          && (forall k :: 0 <= k < |e.children| ==> WellFormedTree(e.children[k])))
  }

  /** The error `fs.readdir` rejects with, naming the directory it could not list. */
  datatype FsError = ReadDirFailed(path: Path)

  /** `fs.readdir(path, { withFileTypes: true })` on the entry found at `path`. */
  function ReadDir(dir: Entry, path: Path): Result<seq<Entry>, FsError> {
    if dir.Dir? then Ok(dir.children) else Err(ReadDirFailed(path))
  }
}
