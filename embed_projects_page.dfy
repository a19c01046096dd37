/**
 * The embeddable gallery page: it reads `category` and `limit` from the
 * URL's query string, normalises them, and shows the projects
 * `getProjects` returns for them.
 */
module EmbedProjectsPage {
  import opened Wrappers
  import opened JsBuiltins
  import opened FileTree
  import Sorting
  import Projects

  /** A query-string value: a repeated parameter arrives as a list. */
  datatype ParamValue = Single(value: string) | Repeated(values: seq<string>)

  /** `searchParams?.[name]`: the page may receive no parameters at all. */
  function Param(searchParams: Option<map<string, ParamValue>>, name: string): (r: Option<ParamValue>)
    ensures r.Some? <==> searchParams.Some? && name in searchParams.value
  {
    if searchParams.Some? && name in searchParams.value then Some(searchParams.value[name]) else None
  }

  /** A list yields its first element (none for an empty list); a single value is taken as it is. */
  function FirstValue(param: Option<ParamValue>): (r: Option<string>)
    ensures param.None? ==> r.None?
    ensures param.Some? && param.value.Single? ==> r == Some(param.value.value)
    ensures param.Some? && param.value.Repeated? ==>
      (r.Some? <==> param.value.values != []) && (r.Some? ==> r.value == param.value.values[0])
  {
    match param
    case None => None
    case Some(Single(v)) => Some(v)
    case Some(Repeated(vs)) => if vs == [] then None else Some(vs[0])
  }

  /** `category?.trim()`. */
  function CategoryOption(category: Option<string>): (r: Option<string>)
    ensures r.Some? <==> category.Some?
    ensures r.Some? ==> r.value == Trim(category.value)
  {
    if category.Some? then Some(Trim(category.value)) else None
  }

  /**
   * An absent or empty limit string is `NaN`; otherwise `parseInt(_, 10)`.
   * Only a positive result is kept.
   */
  function LimitOption(limitValue: Option<string>): (r: Option<int>)
    ensures r.Some? ==> r.value > 0
    ensures limitValue.None? || limitValue.value == "" ==> r.None?
    ensures limitValue.Some? && limitValue.value != "" ==>
      (r.Some? <==> ParseInt(limitValue.value).Some? && ParseInt(limitValue.value).value > 0)
    ensures r.Some? ==> r == ParseInt(limitValue.value)
  {
    var parsed := if limitValue.Some? && limitValue.value != "" then ParseInt(limitValue.value) else None;
    if parsed.Some? && parsed.value > 0 then parsed else None
  }

  /** The options the page passes to `getProjects`. */
  function PageOptions(searchParams: Option<map<string, ParamValue>>): (r: Projects.GetProjectsOptions)
    ensures var c := FirstValue(Param(searchParams, "category"));
      && (r.category.Some? <==> c.Some?)
      && (r.category.Some? ==> r.category.value == Trim(c.value) && Trim(r.category.value) == r.category.value)
    ensures var l := FirstValue(Param(searchParams, "limit"));
      && (r.limit.Some? <==> l.Some? && l.value != "" && ParseInt(l.value).Some? && ParseInt(l.value).value > 0)
      && (r.limit.Some? ==> r.limit.value > 0 && r.limit == ParseInt(l.value))
  {
    var category := FirstValue(Param(searchParams, "category"));
    CategoryTrimmed(category);
    Projects.GetProjectsOptions(CategoryOption(category), LimitOption(FirstValue(Param(searchParams, "limit"))))
  }

  /** The page's projects: the catalogue's failure, or `getProjects` with the normalised options. */
  method Page(root: Entry, cmp: (string, string) -> int, searchParams: Option<map<string, ParamValue>>)
    returns (r: Result<seq<Projects.Project>, FsError>)
    requires Sorting.IsComparator(cmp)
    ensures r.Err? <==> Projects.Catalog(root, cmp).Err?
    ensures r.Ok? ==> r.value == Projects.Query(Projects.Catalog(root, cmp).value, PageOptions(searchParams))
  {
    var categoryParam := Param(searchParams, "category");
    var limitParam := Param(searchParams, "limit");
    var category := FirstValue(categoryParam);
    var limitValue := FirstValue(limitParam);
    var trimmedCategory := CategoryOption(category);
    var limit := LimitOption(limitValue);
    r := Projects.GetProjects(root, cmp, Projects.GetProjectsOptions(trimmedCategory, limit));
  }

  // ------------------------------------------------------------ properties

  /** The category passed on is already trimmed: `getProjects` trimming it again changes nothing. */
  lemma CategoryTrimmed(category: Option<string>)
    ensures var r := CategoryOption(category); r.Some? ==> Trim(r.value) == r.value
  {
    if category.Some? {
      TrimShape(category.value);
      TrimKeepsTrimmed(Trim(category.value));
    }
  }

  /**
   * A category made only of whitespace becomes `""` here, which means "no
   * filter": the page shows every project (up to the limit), unlike a
   * direct `getProjects` call with that category.
   */
  lemma BlankCategoryShowsAll(catalog: seq<Projects.Project>, searchParams: Option<map<string, ParamValue>>)
    requires var c := FirstValue(Param(searchParams, "category"));
      c.Some? && forall i :: 0 <= i < |c.value| ==> IsJsWhitespace(c.value[i])
    ensures Projects.Query(catalog, PageOptions(searchParams)) ==
      Projects.Query(catalog, Projects.GetProjectsOptions(None, PageOptions(searchParams).limit))
  {
    TrimEmptyIff(FirstValue(Param(searchParams, "category")).value);
  }

  /** Without query parameters the page shows the whole catalogue. */
  lemma NoParamsShowsAll(catalog: seq<Projects.Project>)
    ensures Projects.Query(catalog, PageOptions(None)) == catalog
  {
  }

  /** A limit with trailing text keeps its leading number: `"12abc"` gives 12. */
  lemma LimitDigitPrefix(limitValue: string)
    requires limitValue == "12abc"
    ensures LimitOption(Some(limitValue)) == Some(12)
  {
    assert DecimalString(12) == "12";
    assert limitValue == DecimalString(12) + "abc";
    ParseIntDecimalPrefix(12, "abc");
  }

  /** Any decimal number followed by non-digits reads as that number, when positive. */
  lemma LimitOfDecimal(n: nat, rest: string)
    requires n > 0 && (rest == [] || !IsDigit(rest[0]))
    ensures LimitOption(Some(DecimalString(n) + rest)) == Some(n)
  {
    ParseIntDecimalPrefix(n, rest);
  }

  /** Text that does not start with a number gives no limit: `"abc"`. */
  lemma LimitOfLetters(limitValue: string)
    requires limitValue == "abc"
    ensures LimitOption(Some(limitValue)).None?
  {
    assert limitValue[0] == 'a' && !IsJsWhitespace('a');
    assert TrimStart(limitValue) == limitValue;
    ParseIntNoDigits(limitValue);
  }

  /** Zero is not a limit: `"0"`. */
  lemma LimitOfZero(limitValue: string)
    requires limitValue == "0"
    ensures LimitOption(Some(limitValue)).None?
  {
    assert limitValue == DecimalString(0) + "";
    ParseIntDecimalPrefix(0, "");
  }

  /** A negative number is not a limit: `"-3"`. */
  lemma LimitOfNegative(limitValue: string)
    requires limitValue == "-3"
    ensures LimitOption(Some(limitValue)).None?
  {
    assert limitValue[0] == '-' && !IsJsWhitespace('-');
    assert TrimStart(limitValue) == limitValue;
    ParseIntNegative(limitValue);
  }

  /** A repeated parameter is read from its first occurrence only. */
  lemma RepeatedTakesFirst(first: string, others: seq<string>)
    ensures FirstValue(Some(Repeated([first] + others))) == Some(first)
  {
  }
}
