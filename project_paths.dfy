/**
 * The string helpers of the catalog builder: which files count as images,
 * how a path below the public directory becomes a web path, and how a
 * directory name becomes a URL slug.
 */
module ProjectPaths {
  import opened JsBuiltins
  import opened NodePath
  import opened FileTree

  // ------------------------------------------------------------ images

  /** The recognised image extensions, lower-case with their dot. */
  const ImageExtensions: set<string> := {".jpg", ".jpeg", ".png", ".webp"}

  /** A file is an image when its lower-cased extension is a recognised one. */
  predicate IsImageFile(filename: string) {
    Lower(ExtName(filename)) in ImageExtensions
  }

  /** `name` ends, case-insensitively, with `ext`, and has at least one character before it. */
  predicate EndsWithExtension(name: string, ext: string) {
    |name| > |ext| && Lower(name[|name| - |ext|..]) == ext
  }

  /** Lower-casing commutes with taking a suffix. */
  lemma LowerSuffix(s: string, k: nat)
    requires k <= |s|
    ensures Lower(s[k..]) == Lower(s)[k..]
  {
  }

  /** One of the recognised extensions is the extension of a name that ends with it. */
  lemma {:induction false} ExtensionMatches(name: string, ext: string)
    requires ext in ImageExtensions
    ensures EndsWithExtension(name, ext) <==> Lower(ExtName(name)) == ext
  {
    var n := |name|;
    var k := n - |ext|;
    if EndsWithExtension(name, ext) {
      var suffix := name[k + 1..];
      assert name == name[..k] + "." + suffix by {
        assert name[k] == LowerChar(name[k]) == ext[0] == '.' by {
          assert Lower(name[k..])[0] == LowerChar(name[k]);
        }
      }
      forall j | 0 <= j < |suffix| ensures suffix[j] != '.' {
        assert Lower(name[k..])[j + 1] == LowerChar(suffix[j]) == ext[j + 1];
      }
      ExtNameOfSuffix(name[..k], suffix);
      assert ExtName(name) == name[k..];
    }
    if Lower(ExtName(name)) == ext {
      var d := LastDot(name);
      assert d > 0 && ExtName(name) == name[d..];
      assert |name[d..]| == |ext|;
    }
  }

  /**
   * A name is an image file exactly when it ends, case-insensitively, with
   * `.jpg`, `.jpeg`, `.png` or `.webp` after at least one other character.
   */
  lemma IsImageFileIff(filename: string)
    ensures IsImageFile(filename) <==>
      || EndsWithExtension(filename, ".jpg")
      || EndsWithExtension(filename, ".jpeg")
      || EndsWithExtension(filename, ".png")
      || EndsWithExtension(filename, ".webp")
  {
    ExtensionMatches(filename, ".jpg");
    ExtensionMatches(filename, ".jpeg");
    ExtensionMatches(filename, ".png");
    ExtensionMatches(filename, ".webp");
  }

  /** The extension is compared without case: `A.JPG` is an image. */
  lemma ImageFileUpperCase(name: string)
    requires name == "A.JPG"
    ensures IsImageFile(name)
  {
    ExtNameOfSuffix("A", "JPG");
    assert "A" + "." + "JPG" == name;
    assert Lower(".JPG") == ".jpg";
  }

  /** Other extensions are not images: `notes.txt`. */
  lemma ImageFileOtherExtension(name: string)
    requires name == "notes.txt"
    ensures !IsImageFile(name)
  {
    ExtNameOfSuffix("notes", "txt");
    assert "notes" + "." + "txt" == name;
    assert Lower(".txt") == ".txt";
  }

  /** A dot-file named like an extension has no extension, so `.png` is not an image. */
  lemma ImageFileDotFile(name: string)
    requires name == ".png"
    ensures !IsImageFile(name)
  {
    ExtNameEmpty(name);
  }

  // --------------------------------------------------------- web paths

  /**
   * The web path of a file below the public directory: a leading `/` and the
   * path's names joined with `/` (the POSIX separator).
   */
  function ToWebPath(relative: Path): (r: string)
    ensures r != [] && r[0] == '/'
  {
    "/" + Join(relative, '/')
  }

  /** The web path determines the file: splitting it after the leading `/` gives the names back. */
  lemma WebPathRoundTrip(relative: Path)
    requires |relative| >= 1
    requires forall i :: 0 <= i < |relative| ==> '/' !in relative[i]
    ensures Split(ToWebPath(relative)[1..], '/') == relative
  {
    assert ToWebPath(relative)[1..] == Join(relative, '/');
    SplitJoin(relative, '/');
  }

  /** Distinct files have distinct web paths. */
  lemma WebPathInjective(p: Path, q: Path)
    requires |p| >= 1 && |q| >= 1
    requires forall i :: 0 <= i < |p| ==> '/' !in p[i]
    requires forall i :: 0 <= i < |q| ==> '/' !in q[i]
    requires ToWebPath(p) == ToWebPath(q)
    ensures p == q
  {
    WebPathRoundTrip(p);
    WebPathRoundTrip(q);
  }

  // ------------------------------------------------------------- slugs

  /** The characters a slug keeps: `[a-z0-9]`. */
  predicate IsSlugChar(c: char) {
    'a' <= c <= 'z' || '0' <= c <= '9'
  }

  ghost predicate SlugCharset(s: string) {
    forall i :: 0 <= i < |s| ==> IsSlugChar(s[i]) || s[i] == '-'
  }

  ghost predicate NoDoubleHyphen(s: string) {
    forall i :: 0 < i < |s| ==> !(s[i - 1] == '-' && s[i] == '-')
  }

  /**
   * A well-formed slug: lower-case letters, digits and single hyphens, with
   * no hyphen at either end.
   */
  ghost predicate IsSlug(s: string) {
    && SlugCharset(s)
    && NoDoubleHyphen(s)
    && (s != [] ==> s[0] != '-' && s[|s| - 1] != '-')
  }

  /** Drops the leading run of characters outside `[a-z0-9]`. */
  function DropRun(s: string): (r: string)
    ensures |r| <= |s| && r == s[|s| - |r|..]
    ensures r == [] || IsSlugChar(r[0])
  {
    if s != [] && !IsSlugChar(s[0]) then
      var r := DropRun(s[1..]);
      SuffixOfTail(s, |s| - |r|);
      r
    else s
  }

  lemma SuffixOfTail<T>(s: seq<T>, k: nat)
    requires 1 <= k <= |s|
    ensures s[1..][k - 1..] == s[k..]
  {
  }

  /** `replace(/[^a-z0-9]+/g, "-")`: each maximal run of other characters becomes one hyphen. */
  function CollapseRuns(s: string): (r: string)
    ensures (r == []) == (s == [])
    ensures s != [] && IsSlugChar(s[0]) ==> r[0] == s[0]
    ensures s != [] && !IsSlugChar(s[0]) ==> r[0] == '-'
    decreases |s|
  {
    if s == [] then []
    else if IsSlugChar(s[0]) then [s[0]] + CollapseRuns(s[1..])
    else "-" + CollapseRuns(DropRun(s[1..]))
  }

  /** The run replacement leaves only `[a-z0-9-]`, and never two hyphens in a row. */
  lemma {:induction false} CollapseRunsWellFormed(s: string)
    ensures SlugCharset(CollapseRuns(s)) && NoDoubleHyphen(CollapseRuns(s))
    decreases |s|
  {
    if s != [] {
      var rest := if IsSlugChar(s[0]) then s[1..] else DropRun(s[1..]);
      var t := CollapseRuns(rest);
      CollapseRunsWellFormed(rest);
      var r := CollapseRuns(s);
      assert r == [r[0]] + t;
      assert t != [] && !IsSlugChar(s[0]) ==> t[0] != '-';
      forall i | 0 <= i < |r| ensures IsSlugChar(r[i]) || r[i] == '-' {
        if i > 0 {
          assert r[i] == t[i - 1];
        }
      }
      forall i | 0 < i < |r| ensures !(r[i - 1] == '-' && r[i] == '-') {
        assert r[i] == t[i - 1];
        if i > 1 {
          assert r[i - 1] == t[i - 2];
        }
      }
    }
  }

  /** `replace(/(^-|-$)/g, "")`: drops one hyphen at the start and one at the end. */
  function StripEdgeHyphens(s: string): string {
    var a := if |s| > 0 && s[0] == '-' then 1 else 0;
    var b := if |s| > a && s[|s| - 1] == '-' then |s| - 1 else |s|;
    s[a..b]
  }

  /** `slugify`: lower-case, collapse runs of other characters to `-`, strip edge hyphens, trim. */
  function Slugify(value: string): string {
    Trim(StripEdgeHyphens(CollapseRuns(Lower(value))))
  }

  lemma StripEdgeHyphensIsSlug(s: string)
    requires SlugCharset(s) && NoDoubleHyphen(s)
    ensures IsSlug(StripEdgeHyphens(s))
  {
    var a := if |s| > 0 && s[0] == '-' then 1 else 0;
    var b := if |s| > a && s[|s| - 1] == '-' then |s| - 1 else |s|;
    var t := s[a..b];
    assert t == StripEdgeHyphens(s);
    if a < b {
      assert t[0] == s[a] && t[|t| - 1] == s[b - 1];
      if a == 1 {
        assert s[0] == '-' && s[1] != '-';
      }
      if b < |s| {
        assert s[b] == '-' && s[b - 1] != '-';
      }
    }
  }

  /** Every slug is well formed. */
  lemma SlugifyIsSlug(value: string)
    ensures IsSlug(Slugify(value))
  {
    TrimChangesNothing(value);
    CollapseRunsWellFormed(Lower(value));
    StripEdgeHyphensIsSlug(CollapseRuns(Lower(value)));
  }

  /** The final `trim` of `slugify` never changes anything: no slug character is whitespace. */
  lemma TrimChangesNothing(value: string)
    ensures Slugify(value) == StripEdgeHyphens(CollapseRuns(Lower(value)))
  {
    var c := CollapseRuns(Lower(value));
    CollapseRunsWellFormed(Lower(value));
    StripEdgeHyphensIsSlug(c);
    TrimKeepsTrimmed(StripEdgeHyphens(c));
  }

  lemma {:induction false} CollapseRunsFixes(s: string)
    requires SlugCharset(s) && NoDoubleHyphen(s)
    ensures CollapseRuns(s) == s
    decreases |s|
  {
    if s != [] {
      var t := s[1..];
      assert SlugCharset(t) && NoDoubleHyphen(t) by {
        forall i | 0 < i < |t| ensures !(t[i - 1] == '-' && t[i] == '-') {
          assert t[i - 1] == s[i] && t[i] == s[i + 1];
        }
      }
      if !IsSlugChar(s[0]) {
        if t != [] {
          assert !(s[0] == '-' && s[1] == '-');
        }
        assert DropRun(t) == t;
      }
      CollapseRunsFixes(t);
      assert s == [s[0]] + t;
    }
  }

  /** A well-formed slug is its own slug. */
  lemma SlugifyFixesSlugs(s: string)
    requires IsSlug(s)
    ensures Slugify(s) == s
  {
    assert Lower(s) == s;
    CollapseRunsFixes(s);
    assert StripEdgeHyphens(s) == s;
    TrimKeepsTrimmed(s);
  }

  /** `slugify` is idempotent. */
  lemma SlugifyIdempotent(value: string)
    ensures Slugify(Slugify(value)) == Slugify(value)
  {
    SlugifyIsSlug(value);
    SlugifyFixesSlugs(Slugify(value));
  }

  /** The letters and digits of `s`, in order. */
  function Alnums(s: string): (r: string)
    ensures |r| <= |s|
    ensures forall i :: 0 <= i < |r| ==> IsSlugChar(r[i])
  {
    if s == [] then []
    else (if IsSlugChar(s[0]) then [s[0]] else []) + Alnums(s[1..])
  }

  lemma {:induction false} AlnumsAppend(a: string, b: string)
    ensures Alnums(a + b) == Alnums(a) + Alnums(b)
    decreases |a|
  {
    if a != [] {
      var head: string := if IsSlugChar(a[0]) then [a[0]] else [];
      assert (a + b)[0] == a[0];
      assert (a + b)[1..] == a[1..] + b;
      assert Alnums(a + b) == head + Alnums(a[1..] + b);
      AlnumsAppend(a[1..], b);
      assert Alnums(a) == head + Alnums(a[1..]);
    } else {
      assert a + b == b;
    }
  }

  lemma {:induction false} AlnumsDropRun(s: string)
    ensures Alnums(DropRun(s)) == Alnums(s)
    decreases |s|
  {
    if s != [] && !IsSlugChar(s[0]) {
      AlnumsDropRun(s[1..]);
    }
  }

  lemma {:induction false} AlnumsCollapseRuns(s: string)
    ensures Alnums(CollapseRuns(s)) == Alnums(s)
    decreases |s|
  {
    if s != [] {
      if IsSlugChar(s[0]) {
        AlnumsCollapseRuns(s[1..]);
        assert ([s[0]] + CollapseRuns(s[1..]))[1..] == CollapseRuns(s[1..]);
      } else {
        var t := DropRun(s[1..]);
        AlnumsCollapseRuns(t);
        AlnumsDropRun(s[1..]);
        assert ("-" + CollapseRuns(t))[1..] == CollapseRuns(t);
      }
    }
  }

  lemma AlnumsStripEdgeHyphens(s: string)
    ensures Alnums(StripEdgeHyphens(s)) == Alnums(s)
  {
    var a := if |s| > 0 && s[0] == '-' then 1 else 0;
    var b := if |s| > a && s[|s| - 1] == '-' then |s| - 1 else |s|;
    assert Alnums(s[a..]) == Alnums(s) by {
      if a == 1 {
        assert s[a..] == s[1..];
      } else {
        assert s[a..] == s;
      }
    }
    if b < |s| {
      assert s[a..] == s[a..b] + "-";
      AlnumsAppend(s[a..b], "-");
      assert Alnums("-") == [];
    } else {
      assert s[a..b] == s[a..];
    }
  }

  /** `slugify` keeps exactly the lower-cased letters and digits of its input, in order. */
  lemma SlugifyKeepsAlnums(value: string)
    ensures Alnums(Slugify(value)) == Alnums(Lower(value))
  {
    AlnumsCollapseRuns(Lower(value));
    AlnumsStripEdgeHyphens(CollapseRuns(Lower(value)));
    TrimChangesNothing(value);
  }

  /** The slug is empty exactly when the input has no ASCII letter or digit. */
  lemma SlugifyEmptyIff(value: string)
    ensures Slugify(value) == "" <==> Alnums(Lower(value)) == ""
  {
    SlugifyKeepsAlnums(value);
    SlugifyIsSlug(value);
    var s := Slugify(value);
    if s != "" {
      assert IsSlugChar(s[0]);
      assert Alnums(s) == [s[0]] + Alnums(s[1..]);
    }
  }

  /** A run of letters and digits passes through the hyphen collapsing unchanged. */
  lemma {:induction false} CollapseRunsAlnumPrefix(x: string, y: string)
    requires forall i :: 0 <= i < |x| ==> IsSlugChar(x[i])
    ensures CollapseRuns(x + y) == x + CollapseRuns(y)
    decreases |x|
  {
    if x == [] {
      assert x + y == y;
    } else {
      var xy := x + y;
      assert xy[0] == x[0] && IsSlugChar(x[0]);
      assert xy[1..] == x[1..] + y;
      assert CollapseRuns(xy) == [x[0]] + CollapseRuns(x[1..] + y);
      CollapseRunsAlnumPrefix(x[1..], y);
      assert x == [x[0]] + x[1..];
    }
  }

  /** A separator followed by a word becomes a hyphen followed by that word. */
  lemma CollapseRunsSeparatedWord(sep: char, y: string)
    requires forall i :: 0 <= i < |y| ==> IsSlugChar(y[i])
    requires y != [] && !IsSlugChar(sep)
    ensures CollapseRuns([sep] + y) == "-" + y
  {
    var tail := [sep] + y;
    assert tail[0] == sep && tail[1..] == y;
    assert DropRun(y) == y;
    CollapseRunsAlnumPrefix(y, "");
    assert y + "" == y;
  }

  /** One separator character between two words becomes one hyphen. */
  lemma CollapseRunsTwoWords(x: string, sep: char, y: string)
    requires forall i :: 0 <= i < |x| ==> IsSlugChar(x[i])
    requires forall i :: 0 <= i < |y| ==> IsSlugChar(y[i])
    requires y != [] && !IsSlugChar(sep)
    ensures CollapseRuns(x + [sep] + y) == x + "-" + y
  {
    CollapseRunsAlnumPrefix(x, [sep] + y);
    CollapseRunsSeparatedWord(sep, y);
    ConcatAssociative(x, [sep], y);
    ConcatAssociative(x, "-", y);
  }

  lemma ConcatAssociative<T>(a: seq<T>, b: seq<T>, c: seq<T>)
    ensures a + (b + c) == a + b + c
  {
  }

  /**
   * Two words joined by any one character outside `[A-Za-z0-9]` give the
   * slug of the lower-cased words joined by one hyphen.
   */
  lemma SlugifyTwoWords(x: string, sep: char, y: string)
    requires x != [] && y != []
    requires forall i :: 0 <= i < |x| ==> IsSlugChar(LowerChar(x[i]))
    requires forall i :: 0 <= i < |y| ==> IsSlugChar(LowerChar(y[i]))
    requires !IsSlugChar(LowerChar(sep))
    ensures Slugify(x + [sep] + y) == Lower(x) + "-" + Lower(y)
  {
    LowerConcat(x, [sep], y);
    assert Lower([sep]) == [LowerChar(sep)];
    CollapseRunsTwoWords(Lower(x), LowerChar(sep), Lower(y));
    var c := Lower(x) + "-" + Lower(y);
    assert c[0] == Lower(x)[0] && c[|c| - 1] == Lower(y)[|y| - 1];
    SlugifyWithoutEdgeHyphens(x + [sep] + y);
  }

  lemma LowerConcat(x: string, m: string, y: string)
    ensures Lower(x + m + y) == Lower(x) + Lower(m) + Lower(y)
  {
  }

  /** When collapsing leaves no hyphen at either end, the rest of `slugify` changes nothing. */
  lemma SlugifyWithoutEdgeHyphens(value: string)
    requires var c := CollapseRuns(Lower(value)); c != [] && c[0] != '-' && c[|c| - 1] != '-'
    ensures Slugify(value) == CollapseRuns(Lower(value))
  {
    var c := CollapseRuns(Lower(value));
    CollapseRunsWellFormed(Lower(value));
    assert StripEdgeHyphens(c) == c;
    TrimKeepsTrimmed(c);
  }

  /**
   * Two-word names that differ only in letter case and in the one character
   * between the words have the same slug.
   */
  lemma SlugIgnoresCaseAndSeparator(x: string, sep: char, y: string, u: string, sep2: char, v: string)
    requires x != [] && y != []
    requires forall i :: 0 <= i < |x| ==> IsSlugChar(LowerChar(x[i]))
    requires forall i :: 0 <= i < |y| ==> IsSlugChar(LowerChar(y[i]))
    requires Lower(u) == Lower(x) && Lower(v) == Lower(y)
    requires !IsSlugChar(LowerChar(sep)) && !IsSlugChar(LowerChar(sep2))
    ensures Slugify(x + [sep] + y) == Slugify(u + [sep2] + v)
  {
    SlugifyTwoWords(x, sep, y);
    assert u != [] && v != [];
    forall i | 0 <= i < |u| ensures IsSlugChar(LowerChar(u[i])) {
      assert LowerChar(u[i]) == Lower(u)[i] == Lower(x)[i] == LowerChar(x[i]);
    }
    forall i | 0 <= i < |v| ensures IsSlugChar(LowerChar(v[i])) {
      assert LowerChar(v[i]) == Lower(v)[i] == Lower(y)[i] == LowerChar(y[i]);
    }
    SlugifyTwoWords(u, sep2, v);
  }

  /** `Road` and `road` lower-case alike, and so do `Work` and `work`. */
  lemma LowerRoadWork(x: string, y: string, u: string, v: string)
    requires x == "Road" && y == "Work" && u == "road" && v == "work"
    ensures Lower(u) == Lower(x) == u && Lower(v) == Lower(y) == v
  {
    assert Lower(x) == u by {
      assert Lower(x)[0] == 'r' && Lower(x)[1] == 'o' && Lower(x)[2] == 'a' && Lower(x)[3] == 'd';
    }
    assert Lower(y) == v by {
      assert Lower(y)[0] == 'w' && Lower(y)[1] == 'o' && Lower(y)[2] == 'r' && Lower(y)[3] == 'k';
    }
    assert Lower(u) == u;
    assert Lower(v) == v;
  }

  /**
   * Different names can share a slug: `Road-Work` and `road work` both give
   * the non-empty slug `road-work`.
   */
  lemma SlugCollision(x: string, y: string, u: string, v: string)
    requires x == "Road" && y == "Work" && u == "road" && v == "work"
    ensures Slugify(x + "-" + y) == Slugify(u + " " + v) != ""
  {
    LowerRoadWork(x, y, u, v);
    assert forall i :: 0 <= i < |u| ==> IsSlugChar(LowerChar(u[i]));
    assert forall i :: 0 <= i < |v| ==> IsSlugChar(LowerChar(v[i]));
    SlugifyTwoWords(u, ' ', v);
    SlugIgnoresCaseAndSeparator(u, ' ', v, x, '-', y);
  }


}
