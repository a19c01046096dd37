# sp-gallery in Dafny

A model of the logic of sp-gallery, a Next.js photo gallery. Projects are
folders of photos under `public/<category>/<project>/`. The model covers
four pieces:

- **The catalogue** (`lib/projects.ts`, and the build script
  `scripts/generate-projects.mjs` that writes the same catalogue to
  `data/projects.json`). It walks the asset tree, collects and sorts each
  project's image paths, builds one record per project (slug, title,
  category, cover, images, count), sorts the records by category and
  title, and answers `getProjects({ category, limit })`.
- **The gallery's lightbox state** (`components/ProjectsGallery.tsx`). It
  tracks which project is open and which image is shown, and steps between
  images with wrap-around. When embedded in another page, it also tells the
  parent frame whenever the lightbox opens or closes.
- **The lightbox itself** (`components/Lightbox.tsx`): keyboard, swipe and
  click handling, the body scroll lock, and what is shown.
- **The embeddable page** (`app/embed/projects/page.tsx`). It normalises
  the `category` and `limit` query parameters and passes them to
  `getProjects`.

## Modules

| file | module | what it holds |
|---|---|---|
| `wrappers.dfy` | `Wrappers` | `Option`, `Result` |
| `js_builtins.dfy` | `JsBuiltins` | ASCII `toLowerCase`, `trim`, `Number.parseInt(_, 10)`, JavaScript `%`, `join`, `split` |
| `sorting.dfy` | `Sorting` | the comparator contract, and `Array.prototype.sort` as a stable sort shown to be the only stable sort |
| `node_path.dfy` | `NodePath` | `path.extname` |
| `file_tree.dfy` | `FileTree` | the asset tree and `fs.readdir` over it |
| `project_paths.dfy` | `ProjectPaths` | `isImageFile`, `toWebPath`, `slugify` |
| `projects.dfy` | `Projects` | `collectImages`, `loadProjectsFromDisk`, `getProjects` |
| `generate_projects.dfy` | `GenerateProjects` | the build script's `main` |
| `lightbox.dfy` | `Lightbox` | the lightbox's input handling, scroll lock and view |
| `projects_gallery.dfy` | `ProjectsGallery` | the `Gallery` class: lightbox state and effects |
| `embed_projects_page.dfy` | `EmbedProjectsPage` | query-parameter normalisation |

How each piece is represented:

- **The file system** is a value. An `Entry` is one of:
  - a file;
  - a readable directory with its children, in `readdir` order;
  - a directory that cannot be read;
  - anything else (a symbolic link, a socket).

  Reading an unreadable directory is an `Err`. It propagates as the
  exception does in the source.
- **The collator** is a parameter `cmp`. The only assumption about it is
  that it is a consistent comparator (`Sorting.IsComparator`), which
  `Intl.Collator.prototype.compare` is.
- **The loops that push into arrays** (`collectImages`,
  `loadProjectsFromDisk`) are methods with loops. Each is proved equal to
  a specification function defined by recursion over the tree
  (`SortedImages`, `Catalog`), and the properties are lemmas about those
  functions. `getProjects` has no loop: `GetProjects` is a method because
  it runs the loader, and its result is the function `Query` of the
  catalogue.
- **The gallery's state** is a class. Its fields are `activeProjectIndex`,
  `activeImageIndex`, and a log of the effects sent outside the page.
- **The lightbox's mutable state** also lives in classes:
  - the `touchStartX` reference is a field of `SwipeArea`;
  - `document.body.style.overflow` and its saved copy are the fields of
    `ScrollLock`.

## Model

| member | source | states |
|---|---|---|
| `JsBuiltins.Lower` | lib/projects.ts:23 | `toLowerCase` keeps the length and maps each character on its own (ASCII letters down by 32, everything else unchanged) |
| `JsBuiltins.LowerIdempotent` | lib/projects.ts:123-124 | lower-casing twice is lower-casing once, so comparing lower-cased categories is stable |
| `JsBuiltins.TrimStart` | lib/projects.ts:123 | the result is a suffix that starts with non-whitespace, and everything dropped is whitespace |
| `JsBuiltins.TrimEnd` | lib/projects.ts:123 | the result is a prefix that ends with non-whitespace, and everything dropped is whitespace |
| `JsBuiltins.Trim` | lib/projects.ts:123 | `trim`: whitespace removed from both ends |
| `JsBuiltins.TrimShape` | app/embed/projects/page.tsx:16 | a trimmed string neither starts nor ends with whitespace |
| `JsBuiltins.TrimKeepsTrimmed` | lib/projects.ts:123 | trimming a string with no whitespace at either end returns it unchanged |
| `JsBuiltins.TrimEmptyIff` | app/embed/projects/page.tsx:16 | a string trims to `""` exactly when every character is whitespace |
| `JsBuiltins.DigitPrefix` | app/embed/projects/page.tsx:17 | the longest prefix of decimal digits: a prefix, all digits, followed by a non-digit or the end |
| `JsBuiltins.ParseInt` | app/embed/projects/page.tsx:17 | `parseInt(s, 10)` is `NaN` exactly when no digit follows the leading whitespace and an optional sign |
| `JsBuiltins.DecimalString` | app/embed/projects/page.tsx:17 | the decimal writing of a natural number is a non-empty run of digits |
| `JsBuiltins.DecimalStringValue` | app/embed/projects/page.tsx:17 | reading back the decimal writing of `n` gives `n` |
| `JsBuiltins.DigitPrefixOfDigits` | app/embed/projects/page.tsx:17 | the digit prefix of digits followed by a non-digit is exactly those digits |
| `JsBuiltins.ParseIntOfDigitStart` | app/embed/projects/page.tsx:17 | a string that starts with a digit parses to the value of its leading digits |
| `JsBuiltins.ParseIntDecimalPrefix` | app/embed/projects/page.tsx:17 | `parseInt` reads the number at the start of a string and ignores the non-digit text after it |
| `JsBuiltins.ParseIntNoDigits` | app/embed/projects/page.tsx:17 | a string whose first non-blank character is neither a sign nor a digit parses to `NaN` |
| `JsBuiltins.ParseIntNegative` | app/embed/projects/page.tsx:17-18 | a string whose first non-blank character is `-` never parses to a positive number |
| `JsBuiltins.JsRem` | components/ProjectsGallery.tsx:68 | JavaScript `%` takes the dividend's sign and has magnitude below the divisor's |
| `JsBuiltins.JsRemNonNegative` | components/ProjectsGallery.tsx:68 | on a non-negative dividend and positive divisor, JavaScript `%` is the mathematical remainder |
| `JsBuiltins.JsRemNegativeExample` | components/ProjectsGallery.tsx:83 | `-1 % 3` is `-1`, not 2, which is why the source adds the length before taking `%` |
| `JsBuiltins.Join` | lib/projects.ts:29 | joining no parts gives the empty string |
| `JsBuiltins.Split` | lib/projects.ts:29 | `split` always returns at least one part |
| `JsBuiltins.SplitSegment` | lib/projects.ts:29 | a separator-free prefix becomes part of the first piece when split |
| `JsBuiltins.SplitJoin` | lib/projects.ts:29 | splitting a `join` of separator-free parts returns the parts exactly |
| `JsBuiltins.JoinInjective` | lib/projects.ts:94 | different separator-free part lists join to different strings |
| `Sorting.Ties` | lib/projects.ts:59 | a tie class holds only elements of the sequence that tie with the key, and is no longer than it |
| `Sorting.Insert` | lib/projects.ts:59 | insertion adds exactly one occurrence of the element |
| `Sorting.SortBy` | lib/projects.ts:59 | the sort returns a permutation of its input |
| `Sorting.ComparatorFacts` | lib/projects.ts:20 | a consistent comparator ties every value with itself, orders any two values one way or the other, and ties symmetrically |
| `Sorting.TiesAppend` | lib/projects.ts:59 | the tie class of a concatenation is the concatenation of the tie classes |
| `Sorting.InsertSorted` | lib/projects.ts:59 | inserting into a sorted sequence keeps it sorted |
| `Sorting.SortBySorted` | lib/projects.ts:59 | the sort's result is ordered by the comparator |
| `Sorting.InsertTies` | lib/projects.ts:59 | insertion puts the element before the elements it ties with and keeps their order |
| `Sorting.SortByStable` | lib/projects.ts:107-113 | the sort is stable: every tie class keeps its input order |
| `Sorting.SortedHeads` | lib/projects.ts:59 | two sorted sequences with the same tie classes start with the same element |
| `Sorting.TailsSameTies` | lib/projects.ts:59 | removing an equal first element keeps the tie classes equal |
| `Sorting.SortedUnique` | lib/projects.ts:59 | two sorted sequences with the same tie classes are equal, so every stable sort gives the same answer |
| `Sorting.SortBySameTies` | lib/projects.ts:49-50 | sorting inputs with the same tie classes gives the same output |
| `Sorting.SameTiesAppend` | lib/projects.ts:50 | concatenation keeps equal tie classes equal |
| `Sorting.SortByIdempotent` | lib/projects.ts:59 | sorting a sorted result again changes nothing |
| `Sorting.SortByMembers` | lib/projects.ts:59 | sorting keeps exactly the same elements |
| `NodePath.LastDot` | lib/projects.ts:23 | the last `.` of a name, with no `.` after it, or -1 when there is none |
| `NodePath.ExtName` | lib/projects.ts:23 | `path.extname` is empty or starts with `.` |
| `NodePath.ExtNameEmpty` | lib/projects.ts:23 | a name with no `.` after its first character (`.png`, `README`) has no extension |
| `NodePath.ExtNameOfSuffix` | lib/projects.ts:23 | the extension of `stem.suffix` is `.suffix` when the stem is non-empty and the suffix has no dot |
| `FileTree.ReadDir` | lib/projects.ts:42 | reading a directory returns its children in order, and reading anything else fails with that path |
| `ProjectPaths.LowerSuffix` | lib/projects.ts:23 | lower-casing commutes with taking a suffix |
| `ProjectPaths.ExtensionMatches` | lib/projects.ts:22-25 | a name ends, ignoring case, with a given dotted extension exactly when its lower-cased `extname` is that extension |
| `ProjectPaths.IsImageFile` | lib/projects.ts:22-25 | `isImageFile`: the lower-cased `extname` is one of the four image extensions |
| `ProjectPaths.IsImageFileIff` | lib/projects.ts:18-25 | a file is an image exactly when its name has a non-empty stem and ends, ignoring case, in `.jpg`, `.jpeg`, `.png` or `.webp` |
| `ProjectPaths.ImageFileUpperCase` | lib/projects.ts:22-25 | the extension is compared without case: `A.JPG` is an image |
| `ProjectPaths.ImageFileOtherExtension` | lib/projects.ts:18-25 | `notes.txt` is not an image |
| `ProjectPaths.ImageFileDotFile` | lib/projects.ts:22-25 | the dot-file `.png` has no extension, so it is not an image |
| `ProjectPaths.ToWebPath` | lib/projects.ts:27-31 | a web path is non-empty and starts with `/` |
| `ProjectPaths.WebPathRoundTrip` | lib/projects.ts:27-31 | the segments of a web path after its leading `/` are the relative path's names, when no name contains `/` |
| `ProjectPaths.WebPathInjective` | lib/projects.ts:27-31 | different relative paths give different web paths |
| `ProjectPaths.DropRun` | lib/projects.ts:36 | dropping a run of non-alphanumerics leaves a suffix that starts with an alphanumeric |
| `ProjectPaths.CollapseRuns` | lib/projects.ts:36 | replacing each run of characters outside `[a-z0-9]` by one `-` keeps a leading slug character and turns a leading run into `-` |
| `ProjectPaths.CollapseRunsWellFormed` | lib/projects.ts:36 | the run replacement leaves only `[a-z0-9-]`, never two hyphens in a row |
| `ProjectPaths.StripEdgeHyphens` | lib/projects.ts:37 | removes one leading and one trailing hyphen |
| `ProjectPaths.Slugify` | lib/projects.ts:33-39 | `slugify`: lower-case, collapse runs of non-`[a-z0-9]` into `-`, strip the edge hyphens, trim |
| `ProjectPaths.StripEdgeHyphensIsSlug` | lib/projects.ts:37 | removing one leading and one trailing hyphen from such a string leaves a slug |
| `ProjectPaths.SlugifyIsSlug` | lib/projects.ts:33-39 | `slugify` returns `[a-z0-9]` words joined by single hyphens, with no hyphen at either end |
| `ProjectPaths.TrimChangesNothing` | lib/projects.ts:38 | the final `trim` of `slugify` never changes anything |
| `ProjectPaths.CollapseRunsFixes` | lib/projects.ts:36 | a string of `[a-z0-9-]` with no double hyphen is left alone by the run replacement |
| `ProjectPaths.SlugifyFixesSlugs` | lib/projects.ts:33-39 | `slugify` returns every slug unchanged |
| `ProjectPaths.SlugifyIdempotent` | lib/projects.ts:33-39 | `slugify` twice is `slugify` once |
| `ProjectPaths.Alnums` | lib/projects.ts:36 | the letters and digits of a string, which are all slug characters |
| `ProjectPaths.AlnumsAppend` | lib/projects.ts:36 | the letters and digits of a concatenation are those of the parts |
| `ProjectPaths.AlnumsDropRun` | lib/projects.ts:36 | dropping a separator run loses no letter or digit |
| `ProjectPaths.AlnumsCollapseRuns` | lib/projects.ts:36 | collapsing separator runs loses no letter or digit |
| `ProjectPaths.AlnumsStripEdgeHyphens` | lib/projects.ts:37 | removing the edge hyphens loses no letter or digit |
| `ProjectPaths.SlugifyKeepsAlnums` | lib/projects.ts:33-39 | `slugify` keeps every ASCII letter (lower-cased) and digit of its input, in order, and adds none |
| `ProjectPaths.SlugifyEmptyIff` | lib/projects.ts:33-39 | `slugify` returns `""` exactly when the input has no ASCII letter or digit |
| `ProjectPaths.CollapseRunsAlnumPrefix` | lib/projects.ts:36 | a leading run of letters and digits passes through the run replacement untouched |
| `ProjectPaths.CollapseRunsSeparatedWord` | lib/projects.ts:36 | one separator followed by a word becomes `-` followed by that word |
| `ProjectPaths.CollapseRunsTwoWords` | lib/projects.ts:36 | two words separated by one non-alphanumeric become two words joined by `-` |
| `ProjectPaths.SlugifyTwoWords` | lib/projects.ts:33-39 | two alphanumeric words around one separator slugify to the lower-cased words joined by `-` |
| `ProjectPaths.LowerConcat` | lib/projects.ts:35 | lower-casing distributes over concatenation |
| `ProjectPaths.SlugifyWithoutEdgeHyphens` | lib/projects.ts:37 | when the run replacement leaves no edge hyphens, `slugify` is that replacement |
| `ProjectPaths.SlugIgnoresCaseAndSeparator` | lib/projects.ts:33-39 | two-word names that differ only in letter case and in the separator between the words have the same slug |
| `ProjectPaths.LowerRoadWork` | lib/projects.ts:35 | `Road` and `road` lower-case to `road`, `Work` and `work` to `work` |
| `ProjectPaths.SlugCollision` | lib/projects.ts:33-39 | `Road-Work` and `road work` have the same non-empty slug: slugs are not unique |
| `Projects.ImageFiles` | lib/projects.ts:41-57 | the walk of one directory before sorting: entries in listing order, a subdirectory's images where it stands, or the first `readdir` failure |
| `Projects.EntryFiles` | lib/projects.ts:45-56 | what one entry adds: a subdirectory's walk, an image file's web path, nothing for anything else |
| `Projects.SortedImages` | lib/projects.ts:41-61 | the specification of `collectImages`: the walk sorted once with the collator |
| `Projects.ImageFilesUpToErr` | lib/projects.ts:45-52 | once the walk of a directory's first entries fails, walking further entries fails with the same error |
| `Projects.CollectImages` | lib/projects.ts:41-61 | `collectImages` (recursion, pushes, sort at every level) returns the one stable sort of the flat depth-first list of image paths, or the first `readdir` failure |
| `Projects.DirectoryImageBelow` | lib/projects.ts:48-52 | an image found under a directory entry is found by the walk of that directory |
| `Projects.DirectoryImageAbove` | lib/projects.ts:48-52 | an image found by the walk of a directory is an image of that directory entry |
| `Projects.FileImage` | lib/projects.ts:54-56 | a non-directory entry contributes an image exactly when it is a file with an image name, and the image is its web path |
| `Projects.WalkImageStep` | lib/projects.ts:45-57 | an image of the first `n + 1` entries is an image of the first `n` or of entry `n` |
| `Projects.ImageFilesUpToMembers` | lib/projects.ts:45-57 | the walk of the first `n` entries finds exactly their images |
| `Projects.EntryFilesMembers` | lib/projects.ts:45-57 | one entry contributes exactly its own images |
| `Projects.ImageFilesMembers` | lib/projects.ts:41-61 | a directory's image list holds exactly the web paths of the image files anywhere below it |
| `Projects.SiblingImagesDiffer` | lib/projects.ts:45-56 | images below two different entries of one directory have different web paths, since entry names are distinct and contain no `/` |
| `Projects.ImageFilesOnce` | lib/projects.ts:41-57 | in a tree with distinct sibling names, the walk lists no web path twice |
| `Projects.SortedImagesDistinct` | lib/projects.ts:41-61 | `collectImages` lists every image exactly once: with `ImageFilesMembers`, no two positions of its result hold the same path |
| `Projects.NonEmpty` | lib/projects.ts:93 | `filter(Boolean)` keeps exactly the non-empty parts |
| `Projects.CategoryRecordsErr` | lib/projects.ts:76-87 | once loading a category's first project entries fails, loading more fails with the same error |
| `Projects.RootRecordsErr` | lib/projects.ts:67-74 | once loading the first categories fails, loading more fails with the same error |
| `Projects.LoadProject` | lib/projects.ts:76-103 | one project entry gives no record if it is not a directory or has no images, otherwise its record |
| `Projects.LoadCategory` | lib/projects.ts:67-105 | one category entry gives no records if it is not a directory, otherwise the records of its project entries in `readdir` order |
| `Projects.Catalog` | lib/projects.ts:63-116 | the specification of the loader: the records of every category in listing order, stably sorted by category and then title, or the first `readdir` failure |
| `Projects.LoadProjectsFromDisk` | lib/projects.ts:63-116 | the loader returns the catalogue specification: the records of every category, sorted by category and then title, or the first `readdir` failure |
| `Projects.ProjectEntryMembers` | lib/projects.ts:76-103 | a project entry's records are exactly the record of that entry, when it is a directory with images |
| `Projects.RecordUpToStep` | lib/projects.ts:76-104 | a record of the first `n + 1` project entries is a record of the first `n` or of entry `n` |
| `Projects.CategoryRecordsMembers` | lib/projects.ts:76-104 | the records of the first `n` project entries are exactly their records |
| `Projects.CategoryEntryMembers` | lib/projects.ts:67-105 | the records of a category entry are exactly the records of its project directories |
| `Projects.CategoryUpToStep` | lib/projects.ts:67-105 | a record of the first `n + 1` categories is a record of the first `n` or of category `n` |
| `Projects.RootRecordsMembers` | lib/projects.ts:67-105 | the records of the first `n` categories are exactly their records |
| `Projects.CatalogMembers` | lib/projects.ts:63-116 | a successful catalogue needs a readable root, and holds exactly one record per project directory with at least one image, in a category directory |
| `Projects.CatalogRecordsWellFormed` | lib/projects.ts:96-103 | every record has `count == images.length >= 1`, `cover == images[0]`, sorted images, and the slug built from its category and title |
| `Projects.RecordWellFormed` | lib/projects.ts:96-103 | one record of a project directory satisfies the same shape |
| `Projects.ProjectOrderAntisymmetric` | lib/projects.ts:107-113 | the record comparator flips sign when its arguments are swapped |
| `Projects.ProjectOrderTransitive` | lib/projects.ts:107-113 | the record comparator's "not after" is transitive |
| `Projects.ProjectOrderIsComparator` | lib/projects.ts:107-113 | comparing by category and then by title is a consistent comparator |
| `Projects.CatalogOrdered` | lib/projects.ts:107-113 | in the catalogue each record's category comes before the next's, or the categories tie and its title is not after the next's |
| `Projects.CatalogIsStableSort` | lib/projects.ts:107-113 | the catalogue is a permutation of the records found, sorted, stable, and equal to any other sorted, stable arrangement of them |
| `Projects.SlugFromParts` | lib/projects.ts:90-97 | the non-empty slugified parts joined with `/`, else the title's slug, else the raw title |
| `Projects.ProjectSlug` | lib/projects.ts:89-97 | the slug of a project from its category and title names |
| `Projects.SlugFromPartsCases` | lib/projects.ts:89-97 | the slug is `c/t` for two non-empty parts, the non-empty part if one, otherwise the slugified title, otherwise the raw title |
| `Projects.NonEmptyPair` | lib/projects.ts:93 | dropping empty parts of a pair leaves the non-empty ones in order |
| `Projects.ProjectSlugCases` | lib/projects.ts:89-97 | the project slug is `slugify(category)/slugify(title)` with empty parts dropped, falling back to the raw title |
| `Projects.SlugHasNoSlash` | lib/projects.ts:92 | a slug never contains `/` |
| `Projects.SlugFromPartsSplit` | lib/projects.ts:90-94 | the slug built from two slugs splits at `/` into exactly its non-empty parts |
| `Projects.ProjectSlugParts` | lib/projects.ts:89-97 | when some part is non-empty, the slug splits at `/` into one or two non-empty slugs, the slugified category and title |
| `Projects.ProjectSlugNonEmpty` | lib/projects.ts:97 | a project slug is never empty (directory names are non-empty) |
| `Projects.ProjectSlugsCollide` | lib/projects.ts:89-97 | `Road-Work` and `road work` in the same category get the same slug: the loader does not deduplicate |
| `Projects.FilterCategory` | lib/projects.ts:124 | the filter keeps exactly the records whose lower-cased category is the wanted one |
| `Projects.FilterCategoryAppend` | lib/projects.ts:124 | filtering a concatenation is concatenating the filtered parts, so order is kept |
| `Projects.Query` | lib/projects.ts:122-131 | the specification of `getProjects` on a loaded catalogue: filter on the trimmed, lower-cased category when it is non-empty, then keep the first `limit` records when the limit is positive |
| `Projects.QueryNoFilter` | lib/projects.ts:118-132 | an absent or empty category and an absent or non-positive limit return the whole catalogue |
| `Projects.QueryCategory` | lib/projects.ts:122-125 | a category option keeps exactly the records whose category matches it after trimming, ignoring case |
| `Projects.QueryBlankCategory` | lib/projects.ts:122-125 | a whitespace-only category still filters, keeping only records whose category is empty |
| `Projects.QueryLimit` | lib/projects.ts:127-129 | a positive limit returns the first `min(limit, n)` records |
| `Projects.QueryFilterThenLimit` | lib/projects.ts:122-129 | a category and a limit filter first and then take the prefix |
| `Projects.QueryWithinCatalog` | lib/projects.ts:118-132 | a query returns only catalogue records |
| `Projects.GetProjects` | lib/projects.ts:118-132 | `getProjects` fails exactly when loading fails, and otherwise returns the query over the catalogue |
| `GenerateProjects.Generate` | scripts/generate-projects.mjs:107-117 | the script writes exactly the catalogue and exits with 0 when loading and writing both succeed; when either fails it writes nothing and sets exit code 1 |
| `Lightbox.KeyDown` | components/Lightbox.tsx:20-44 | a key makes at most one request, the default is prevented exactly when it does, and nothing happens while the lightbox is closed |
| `Lightbox.KeyDownActions` | components/Lightbox.tsx:25-40 | while open, Escape closes, ArrowRight shows the next image, ArrowLeft the previous one, and every other key does nothing |
| `Lightbox.SwipeAction` | components/Lightbox.tsx:88-95 | a swipe more than 50 pixels left requests the next image, more than 50 right the previous one, and anything shorter nothing |
| `Lightbox.SwipeMirror` | components/Lightbox.tsx:89-95 | mirroring a swipe swaps next and previous |
| `Lightbox.SwipeArea.constructor` | components/Lightbox.tsx:18 | the touch start reference begins empty |
| `Lightbox.SwipeArea.TouchStart` | components/Lightbox.tsx:72-75 | a touch start remembers the first touch's x, or nothing when there is no touch |
| `Lightbox.SwipeArea.TouchEnd` | components/Lightbox.tsx:77-98 | a touch end always forgets the start; without a start or a changed touch it requests nothing, otherwise it follows the swipe rule |
| `Lightbox.Swipe` | components/Lightbox.tsx:72-98 | a start at `x0` followed by an end at `x1` requests what the swipe rule says for `x1 - x0` |
| `Lightbox.ClickActions` | components/Lightbox.tsx:66-157 | a click makes at most one request: close exactly on the backdrop itself or the close button, next exactly on the next button and previous exactly on the previous button when there is more than one image, and nothing on the content or on an arrow's spot when the arrows are hidden |
| `Lightbox.ScrollLock.constructor` | components/Lightbox.tsx:46-57 | nothing is saved before the lightbox first opens |
| `Lightbox.ScrollLock.SetOpen` | components/Lightbox.tsx:46-57 | opening saves the body's overflow and sets `hidden`; closing restores the saved value; an unchanged state changes nothing |
| `Lightbox.OpenThenClose` | components/Lightbox.tsx:51-56 | opening and then closing leaves the body's overflow exactly as it was |
| `Lightbox.CurrentImage` | components/Lightbox.tsx:64 | the image at the index when it is in range, otherwise the first image, otherwise none |
| `Lightbox.Render` | components/Lightbox.tsx:59-165 | nothing is rendered unless open with a project; otherwise title, category, current image, counter `index + 1` of `total`, and arrows exactly when `total > 1` |
| `ProjectsGallery.NextIndex` | components/ProjectsGallery.tsx:68 | the next image index stays within the project's images |
| `ProjectsGallery.PreviousIndex` | components/ProjectsGallery.tsx:83 | the previous image index stays within the project's images |
| `ProjectsGallery.NextIndexSteps` | components/ProjectsGallery.tsx:68 | next moves one image forward and wraps from the last image to the first |
| `ProjectsGallery.PreviousIndexSteps` | components/ProjectsGallery.tsx:83 | previous moves one image back and wraps from the first image to the last |
| `ProjectsGallery.StepsInverse` | components/ProjectsGallery.tsx:57-85 | previous undoes next, and next undoes previous |
| `ProjectsGallery.NextTimes` | components/ProjectsGallery.tsx:68 | any number of next steps stays within the images |
| `ProjectsGallery.NextTimesBelow` | components/ProjectsGallery.tsx:68 | before the end, `k` next steps advance by `k` |
| `ProjectsGallery.NextTimesAdd` | components/ProjectsGallery.tsx:68 | `a` steps and then `b` steps are `a + b` steps |
| `ProjectsGallery.NextTimesCycle` | components/ProjectsGallery.tsx:68 | as many next steps as there are images return to the starting image |
| `ProjectsGallery.StepImage` | components/ProjectsGallery.tsx:57-85 | a step gives `NaN` exactly when the index is `NaN` or the project has no images, and keeps an index in range |
| `ProjectsGallery.Posts` | components/ProjectsGallery.tsx:30-43 | the messages an effect log posts to the parent frame, oldest first |
| `ProjectsGallery.PostsMembers` | components/ProjectsGallery.tsx:30-43 | a message is among the posts exactly when the log holds an effect posting it |
| `ProjectsGallery.PostsAppend` | components/ProjectsGallery.tsx:24-45 | the messages of two logs in a row are those of the first, then those of the second |
| `ProjectsGallery.IndexEffects` | components/ProjectsGallery.tsx:24-45 | a new index scrolls to the top exactly when a project is open, and posts exactly one message, describing the new state, when embedded and none otherwise |
| `ProjectsGallery.Gallery.ActiveProject` | components/ProjectsGallery.tsx:16-22 | the open project is the one the index names, and none when the index is null or out of range |
| `ProjectsGallery.Gallery.constructor` | components/ProjectsGallery.tsx:13-34 | mounting starts closed at image 0, and when embedded posts "close" once |
| `ProjectsGallery.Gallery.RunIndexEffect` | components/ProjectsGallery.tsx:24-45 | the effect runs only when the index changed, appending that index's effects |
| `ProjectsGallery.Gallery.Open` | components/ProjectsGallery.tsx:47-50 | opening sets the index and resets the image to 0; a new index scrolls and, when embedded, posts "open"; the invariant is kept |
| `ProjectsGallery.Gallery.Close` | components/ProjectsGallery.tsx:52-55 | closing clears the index and resets the image to 0; when something was open and the page is embedded, it posts "close" |
| `ProjectsGallery.Gallery.Step` | components/ProjectsGallery.tsx:57-85 | next and previous change only the image index, wrapping within the open project, and do nothing when no project is open |
| `ProjectsGallery.Gallery.Dispatch` | components/ProjectsGallery.tsx:52-105 | close clears the index, resets the image and records the index effect when a project was open; next and previous keep the index and the log, and step the image forward or back in the open project (nothing when none is open) |
| `ProjectsGallery.Gallery.PressKey` | components/Lightbox.tsx:20-44 | while open, Escape closes (with the "close" effect), ArrowRight and ArrowLeft step the image forward and back, each preventing the default; every other key, and every key while closed, changes nothing |
| `ProjectsGallery.Gallery.LightboxView` | components/ProjectsGallery.tsx:98-105 | the lightbox is rendered exactly when there is an open project |
| `ProjectsGallery.ViewShowsActiveImage` | components/ProjectsGallery.tsx:98-105 | in a consistent gallery the lightbox shows the image the index names, never the fallback, and its counter lies between 1 and the total |
| `ProjectsGallery.ScrollOnlyOnOpen` | components/ProjectsGallery.tsx:36-40 | the page scrolls to the top exactly when the index changes to a project |
| `ProjectsGallery.OpenStepCloseScenario` | components/ProjectsGallery.tsx:24-85 | open, two steps and close on a two-image project end closed at image 0, having posted close (at mount), open and close, with one scroll |
| `EmbedProjectsPage.Param` | app/embed/projects/page.tsx:11-12 | a parameter is present exactly when there are parameters and they name it |
| `EmbedProjectsPage.FirstValue` | app/embed/projects/page.tsx:14-15 | a list parameter gives its first element (none when empty), a single value itself, and an absent one nothing |
| `EmbedProjectsPage.CategoryOption` | app/embed/projects/page.tsx:16 | the category is trimmed when present and stays absent otherwise |
| `EmbedProjectsPage.LimitOption` | app/embed/projects/page.tsx:17-18 | a limit is kept only when positive and is the `parseInt` of the value; an absent or empty value gives none |
| `EmbedProjectsPage.PageOptions` | app/embed/projects/page.tsx:11-23 | a category is passed on exactly when the first `category` value exists, trimmed and already a fixed point of `trim`; a limit is passed on exactly when the first `limit` value is non-empty and `parseInt` reads a positive number from it, and it is that number |
| `EmbedProjectsPage.Page` | app/embed/projects/page.tsx:20-23 | the page fails exactly when loading fails, and otherwise shows the query with its normalised options |
| `EmbedProjectsPage.CategoryTrimmed` | app/embed/projects/page.tsx:16 | the category passed on is already trimmed, so trimming it again in `getProjects` changes nothing |
| `EmbedProjectsPage.BlankCategoryShowsAll` | app/embed/projects/page.tsx:16 | a whitespace-only category shows the same projects as no category |
| `EmbedProjectsPage.NoParamsShowsAll` | app/embed/projects/page.tsx:11-23 | a page without parameters shows the whole catalogue |
| `EmbedProjectsPage.LimitDigitPrefix` | app/embed/projects/page.tsx:17-18 | `"12abc"` gives the limit 12 |
| `EmbedProjectsPage.LimitOfDecimal` | app/embed/projects/page.tsx:17-18 | a positive number followed by non-digit text gives that limit |
| `EmbedProjectsPage.LimitOfLetters` | app/embed/projects/page.tsx:17-18 | `"abc"` gives no limit |
| `EmbedProjectsPage.LimitOfZero` | app/embed/projects/page.tsx:18 | `"0"` gives no limit |
| `EmbedProjectsPage.LimitOfNegative` | app/embed/projects/page.tsx:18 | `"-3"` gives no limit |
| `EmbedProjectsPage.RepeatedTakesFirst` | app/embed/projects/page.tsx:14-15 | a repeated parameter is read from its first occurrence |

Some consequences of the code that a reader might not expect:

- **Slugs are not unique.** The loader builds each slug from the
  category and title names (lib/projects.ts:89-97) and pushes every
  record (lib/projects.ts:96-103) without comparing slugs, so two project
  folders such as `Road-Work` and `road work` in one category get the
  same slug (`Projects.ProjectSlugsCollide`).
- **"close" is posted at mount.** The effect on `activeProjectIndex`
  (components/ProjectsGallery.tsx:24-45) also runs on the first render,
  when no project is open. An embedded page therefore posts "close" at
  mount and again after each closing
  (`ProjectsGallery.OpenStepCloseScenario`).
- **"open" is posted again on a change of project.** The same effect runs
  whenever the index changes, so moving from one open project straight to
  another posts "open" again (`ProjectsGallery.Gallery.Open`).
- **Blank categories still filter in `getProjects`.** The test
  `if (category)` (lib/projects.ts:122) runs before trimming, so a
  whitespace-only category filters on the empty category
  (`Projects.QueryBlankCategory`). The embed page trims first
  (app/embed/projects/page.tsx:16), so there it means no filter
  (`EmbedProjectsPage.BlankCategoryShowsAll`).
- **Each image once needs real listings.** `collectImages` lists every
  image exactly once only because a directory never has two entries of
  the same name and names never contain `/`; the tree model allows both,
  so `Projects.SortedImagesDistinct` assumes `FileTree.WellFormedTree`.

The generator script carries its own copy of the library's helpers, and the same members model both copies: `isImageFile` (scripts/generate-projects.mjs:4-14) is `ProjectPaths.IsImageFile`, `toWebPath` (scripts/generate-projects.mjs:16-20) is `ProjectPaths.ToWebPath`, `slugify` (scripts/generate-projects.mjs:22-28) is `ProjectPaths.Slugify`, `collectImages` (scripts/generate-projects.mjs:30-50) is `Projects.CollectImages` and `loadProjects` (scripts/generate-projects.mjs:52-105) is `Projects.LoadProjectsFromDisk`; each is the library's code line for line.

## Left out

- **File system.** `fs.readdir`, `path.join`, `path.relative` and
  `process.cwd` are replaced by the `Entry` tree and paths as name
  sequences. The relative path of a file is the list of directory names
  below `public/`, so path separators inside names cannot occur.
- **Collation.** `Intl.Collator` (locale, numeric, base sensitivity) is
  the parameter `cmp`. Only its being a consistent comparator is used.
- **Strings.** A Dafny `string` is a sequence of Unicode scalar values,
  a JavaScript string one of UTF-16 code units. They agree inside the
  Basic Multilingual Plane; for text beyond it, lengths and indices
  differ.
- **Case.** Lower-casing is ASCII only. Other characters are unchanged
  and count as non-alphanumeric in `slugify`.
- **Writing the output file.** The script's `mkdir` and file write are
  reduced to whether they succeed, the parameter `writeSucceeds` of
  `GenerateProjects.Generate`. The JSON serialisation and the console
  output are not modelled; `Generate` records the records written and the
  exit code.
- **Helpers not restated for the script.** The script's copies of
  `isImageFile`, `toWebPath`, `slugify`, `collectImages` and
  `loadProjects` are textually the library's. They are modelled once, by
  the library's members.
- **Browser effects.** `window.postMessage`, the `window.parent !== window`
  test and `window.scrollTo` (with its smooth and fallback forms) become
  `Effect` entries in the gallery's log, plus the `embedded` flag.
- **React scheduling.** Batching, effect timing, stale closures,
  `StrictMode` double effects and rendering are not modelled. Each
  gallery method applies its state update and then the effect run it
  triggers.
- **Keyboard listener lifetime.** Registering and removing the keyboard
  listener is modelled only as "keys act while open".
- **Presentation.** The empty-gallery message, the project cards and their
  labels, the `Image` component, `alt` text and CSS are not modelled.
- **Frame height.** Iframe height reporting does not appear in these
  files.
- **Numbers.** JavaScript numbers are integers here:
  - `NaN` is `None`;
  - a limit beyond the largest finite double (`Infinity` in the source) is
    a huge integer here, and both keep every project;
  - precision loss above 2^53 is not modelled;
  - touch coordinates are integers.
- **Catalogue caching.** `getProjects` reloads the catalogue on each
  call, as the source does. No caching is modelled.
