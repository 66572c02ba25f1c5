/**
 * The metadata of one content page (`Page.getmeta`), made pure: the source
 * path, the date of the file's last modification and the front matter
 * (the document's own metadata block, already converted to plain strings)
 * are inputs.
 */
module PageMeta {
  import opened Text
  import opened Wrappers
  import opened Calendar

  /** A metadata value: a string, or `None` (the category of a page at the
      top of the content directory). */
  datatype Value = Str(s: string) | Null

  /** `str(value)`, how the renderer prints a metadata value. */
  function ValueText(v: Value): string {
    match v
    case Str(s) => s
    case Null => "None"
  }

  type Meta = map<string, Value>

  /** Why a page is skipped: its name does not match the file-name pattern,
      or its final date is not a `%Y-%m-%d` date. */
  datatype PageError = NoTitle(stem: string) | BadDate(date: string)

  // ---------------------------------------------------------------------------
  // Source paths
  // ---------------------------------------------------------------------------

  const ContentDir := "content"

  /** A path component as the recursive glob yields it. */
  predicate GoodSegment(s: string) {
    |s| > 0 && s != "." && s != ".."
  }

  /** A file path the recursive glob of the content directory yields:
      `content/` followed by one or more proper components. */
  predicate IsContentPath(path: string) {
    && |path| > |ContentDir| + 1
    && path[..|ContentDir| + 1] == ContentDir + "/"
    && forall seg :: seg in Split(path[|ContentDir| + 1..], '/') ==> GoodSegment(seg)
  }

  /** `os.path.relpath(path, "content")` for such a path. */
  function RelPath(path: string): (r: string)
    requires IsContentPath(path)
    ensures ContentDir + "/" + r == path
  {
    path[|ContentDir| + 1..]
  }

  /** The output path: the extension replaced by `.html`. */
  function HtmlPath(rel: string): string {
    SplitExt(rel).0 + ".html"
  }

  /** The second-to-last '/' component of the output path, or `None` when
      there is only one (the `IndexError` branch). */
  function Category(relpath: string): (r: Value)
    ensures r.Str? ==> '/' !in r.s
  {
    var parts := Split(relpath, '/');
    if |parts| >= 2 then Str(parts[|parts| - 2]) else Null
  }

  lemma HtmlPathNoSlash(name: string)
    requires '/' !in name
    ensures '/' !in HtmlPath(name)
  {
    assert SplitExt(name).0 == name[..|SplitExt(name).0|];
  }

  lemma HtmlPathInDir(dir: string, name: string)
    requires '/' !in name
    ensures HtmlPath(dir + "/" + name) == dir + "/" + HtmlPath(name)
  {
    SplitExtUnderDir(dir, name);
    AppendAssoc(dir + "/", SplitExt(name).0, ".html");
  }

  /** Under a directory, the output path of `dir/name` is `dir/` followed by
      the output name. */
  lemma HtmlPathUnderDir(init: seq<string>, last: string)
    requires |init| >= 1 && '/' !in last
    ensures HtmlPath(Join(init + [last], '/')) == Join(init + [HtmlPath(last)], '/')
  {
    var dir := Join(init, '/');
    assert Join(init + [last], '/') == dir + "/" + last by {
      JoinSnoc(init, last, '/');
    }
    HtmlPathInDir(dir, last);
    assert Join(init + [HtmlPath(last)], '/') == dir + "/" + HtmlPath(last) by {
      JoinSnoc(init, HtmlPath(last), '/');
    }
  }

  /** Replacing the extension only touches the last component of the
      output path. */
  lemma HtmlPathSegments(segs: seq<string>)
    requires |segs| >= 1 && forall i :: 0 <= i < |segs| ==> '/' !in segs[i]
    ensures var n := |segs|;
            Split(HtmlPath(Join(segs, '/')), '/') == segs[..n - 1] + [HtmlPath(segs[n - 1])]
  {
    var n := |segs|;
    var init := segs[..n - 1];
    var last := segs[n - 1];
    InitLast(segs);
    HtmlPathNoSlash(last);
    var out := init + [HtmlPath(last)];
    assert forall i :: 0 <= i < |out| ==> '/' !in out[i] by {
      forall i | 0 <= i < |out|
        ensures '/' !in out[i]
      {
        if i < n - 1 {
          assert out[i] == segs[i];
        }
      }
    }
    if n == 1 {
      assert out == [HtmlPath(last)];
    } else {
      HtmlPathUnderDir(init, last);
      SplitJoin(out, '/');
    }
  }

  /** The second-to-last component, or `None` when there is only one. */
  function Parent(segs: seq<string>): Value {
    if |segs| >= 2 then Str(segs[|segs| - 2]) else Null
  }

  /** The category is the directory the page sits in (its immediate parent
      inside the content directory), and `None` at the top level. */
  lemma CategoryIsParent(rel: string)
    ensures Category(HtmlPath(rel)) == Parent(Split(rel, '/'))
  {
    var segs := Split(rel, '/');
    JoinSplit(rel, '/');
    HtmlPathSegments(segs);
    assert Split(HtmlPath(rel), '/') == segs[..|segs| - 1] + [HtmlPath(segs[|segs| - 1])];
    CategoryOfParts(HtmlPath(rel), segs, HtmlPath(segs[|segs| - 1]));
  }

  /** The category of an output path whose components are those of `segs`
      with the last one replaced. */
  lemma CategoryOfParts(h: string, segs: seq<string>, last: string)
    requires |segs| >= 1 && Split(h, '/') == segs[..|segs| - 1] + [last]
    ensures Category(h) == Parent(segs)
  {
    var n := |segs|;
    if n >= 2 {
      assert Split(h, '/')[n - 2] == segs[n - 2];
    }
  }

  /** A page is at the top level (`os.path.dirname(src) == "content"`)
      exactly when it has no category. */
  lemma TopLevelIffNoCategory(path: string)
    requires IsContentPath(path)
    ensures Dirname(path) == ContentDir <==> Category(HtmlPath(RelPath(path))) == Null
  {
    var rel := RelPath(path);
    TopLevelIffFlat(path);
    CategoryIsParent(rel);
    SplitCount(rel, '/');
  }

  /** A page is at the top level exactly when its path relative to the
      content directory has a single component. */
  lemma TopLevelIffFlat(path: string)
    requires IsContentPath(path)
    ensures Dirname(path) == ContentDir <==> '/' !in RelPath(path)
  {
    var rel := RelPath(path);
    ContentDirPlain();
    if '/' in rel {
      SplitCount(rel, '/');
      var j := IndexOf(rel, '/');
      assert Split(rel, '/')[0] == rel[..j];
      assert GoodSegment(Split(rel, '/')[0]);
      assert rel[0] == rel[..j][0];
      DirnameDeeper(ContentDir, rel);
    } else {
      DirnameTop(ContentDir, rel);
    }
  }

  lemma ContentDirPlain()
    ensures |ContentDir| > 0 && '/' !in ContentDir
  {
  }

  // ---------------------------------------------------------------------------
  // The file-name pattern ^(?:(\d\d\d\d-\d\d-\d\d)-)?(.+)$
  // ---------------------------------------------------------------------------

  /** `(.+)$` at the start of `s`: `.` does not match a newline, and `$`
      matches at the end or before a final newline. The group is the text
      before that point. */
  function LineBody(s: string): (r: Option<string>)
    ensures r.Some? ==> |r.value| > 0 && '\n' !in r.value && (s == r.value || s == r.value + "\n")
  {
    if |s| > 1 && s[|s| - 1] == '\n' && '\n' !in s[..|s| - 1] then Some(s[..|s| - 1])
    else if |s| > 0 && '\n' !in s then Some(s)
    else None
  }

  /** `LineBody` finds every body there is. */
  lemma LineBodyComplete(b: string)
    requires |b| > 0 && '\n' !in b
    ensures LineBody(b) == Some(b)
    ensures LineBody(b + "\n") == Some(b)
  {
    assert (b + "\n")[..|b|] == b;
  }

  /** The text the optional date group stands for in the name. */
  function DatePart(date: Option<string>): string {
    match date
    case Some(d) => d + "-"
    case None => ""
  }

  /** Groups 1 and 2 of the file-name pattern on the stem: the optional date
      (taken whenever what follows it still matches) and the title. `None`
      when the pattern does not match. */
  function SplitDateTitle(stem: string): (r: Option<(Option<string>, string)>)
    ensures r.Some? ==> (r.value.0.Some? ==> IsoShaped(r.value.0.value))
    ensures r.Some? ==> var n := |DatePart(r.value.0)|;
              n <= |stem| && stem[..n] == DatePart(r.value.0) && LineBody(stem[n..]) == Some(r.value.1)
    ensures r.None? <==> LineBody(stem).None?
  {
    if |stem| > 11 && IsoShaped(stem[..10]) && stem[10] == '-' && LineBody(stem[11..]).Some? then
      assert LineBody(stem).Some? by {
        DatePrefixNoNewline(stem);
        LineBodyAfterPrefix(stem[..11], stem[11..]);
        assert stem[..11] + stem[11..] == stem;
      }
      Some((Some(stem[..10]), LineBody(stem[11..]).value))
    else
      match LineBody(stem)
      case Some(t) => Some((None, t))
      case None => None
  }

  lemma DatePrefixNoNewline(stem: string)
    requires |stem| > 11 && IsoShaped(stem[..10]) && stem[10] == '-'
    ensures '\n' !in stem[..11]
  {
    IsoShapedNoNewline(stem[..10]);
    assert stem[..11] == stem[..10] + [stem[10]];
  }

  /** A prefix without newlines, of at least one character, does not change
      whether the pattern's tail can match. */
  lemma LineBodyAfterPrefix(p: string, s: string)
    requires '\n' !in p && LineBody(s).Some?
    ensures LineBody(p + s).Some?
  {
    var b := LineBody(s).value;
    if s == b + "\n" {
      assert p + s == (p + b) + "\n";
      LineBodyComplete(p + b);
    } else {
      LineBodyComplete(p + b);
    }
  }

  /** A dated name: `DDDD-DD-DD-` followed by a non-empty title splits into
      that date and that title. */
  lemma SplitDateTitleDated(date: string, title: string)
    requires IsoShaped(date) && |title| > 0 && '\n' !in title
    ensures SplitDateTitle(date + "-" + title) == Some((Some(date), title))
  {
    var stem := date + "-" + title;
    assert stem[..10] == date && stem[10] == '-' && stem[11..] == title;
    LineBodyComplete(title);
  }

  /** Without a date prefix followed by a title, the whole stem is the title
      (and the date is left to the file's modification time). */
  lemma SplitDateTitleUndated(stem: string)
    requires |stem| > 0 && '\n' !in stem
    requires !(|stem| > 11 && IsoShaped(stem[..10]) && stem[10] == '-')
    ensures SplitDateTitle(stem) == Some((None, stem))
  {
    LineBodyComplete(stem);
  }

  /** The stem `2024-03-01-hello` is dated; `2024-03-01-` has nothing after
      the date, so it is all title; `about` has no date. */
  lemma SplitDateTitleExamples()
    ensures SplitDateTitle("2024-03-01-hello") == Some((Some("2024-03-01"), "hello"))
    ensures SplitDateTitle("2024-03-01-") == Some((None, "2024-03-01-"))
    ensures SplitDateTitle("about") == Some((None, "about"))
  {
    var d := "2024-03-01";
    assert IsoShaped(d) by {
      assert d[..4] == "2024" && d[5..7] == "03" && d[8..] == "01";
    }
    SplitDateTitleDated(d, "hello");
    assert d + "-" + "hello" == "2024-03-01-hello";
    SplitDateTitleUndated("2024-03-01-");
    SplitDateTitleUndated("about");
  }

  // ---------------------------------------------------------------------------
  // getmeta
  // ---------------------------------------------------------------------------

  /** What the path alone gives: date, title, output path and category. */
  datatype PathInfo = PathInfo(date: string, title: string, relpath: string, category: Value)

  /** The path metadata; `None` when the name does not match the pattern. */
  function PathMeta(path: string, modified: Date): Option<PathInfo>
    requires IsContentPath(path) && Valid(modified)
  {
    var stem := SplitExt(Basename(path)).0;
    match SplitDateTitle(stem)
    case None => None
    case Some((date, title)) =>
      var rel := HtmlPath(RelPath(path));
      Some(PathInfo(date.GetOr(IsoDate(modified)), title, rel, Category(rel)))
  }

  /** The path metadata as the first entries of the metadata dictionary. */
  function AsMeta(p: PathInfo): (r: Meta)
    ensures r.Keys == {"date", "title", "relpath", "category"}
    ensures r["date"] == Str(p.date) && r["title"] == Str(p.title)
    ensures r["relpath"] == Str(p.relpath) && r["category"] == p.category
  {
    map["date" := Str(p.date), "title" := Str(p.title), "relpath" := Str(p.relpath), "category" := p.category]
  }

  /** The front matter as metadata values. */
  function FrontMatter(fm: map<string, string>): (r: Meta)
    ensures r.Keys == fm.Keys
    ensures forall k :: k in fm ==> r[k] == Str(fm[k])
  {
    map k | k in fm :: Str(fm[k])
  }

  /** The second half of `Page.getmeta`, from the path metadata on: the
      front matter overrides it, then `rfc_2822_date` is computed from the
      final date, then `summary` is defaulted to the empty string. */
  function Assemble(pm: Meta, fm: map<string, string>): (r: Result<Meta, PageError>)
    requires "date" in pm
    ensures r.Failure? ==> r.error.BadDate?
  {
    var m := pm + FrontMatter(fm);
    var date := ValueText(m["date"]);
    match ParseIsoDate(date)
    case None => Failure(BadDate(date))
    case Some(d) =>
      var m2 := m["rfc_2822_date" := Str(Rfc2822(d))];
      Success(if "summary" in m2 then m2 else m2["summary" := Str("")])
  }

  /** The date a page ends up with: the front matter's if it has one. */
  function FinalDate(pm: Meta, fm: map<string, string>): string
    requires "date" in pm
  {
    if "date" in fm then fm["date"] else ValueText(pm["date"])
  }

  /** A page is kept exactly when its final date parses, and then has the
      path keys, the front matter's keys, `rfc_2822_date` and `summary`. */
  lemma AssembleOutcome(pm: Meta, fm: map<string, string>)
    requires "date" in pm
    ensures Assemble(pm, fm).Success? <==> ParseIsoDate(FinalDate(pm, fm)).Some?
    ensures Assemble(pm, fm).Failure? ==> Assemble(pm, fm).error == BadDate(FinalDate(pm, fm))
    ensures Assemble(pm, fm).Success? ==>
              Assemble(pm, fm).value.Keys == pm.Keys + fm.Keys + {"rfc_2822_date", "summary"}
  {
    var m := pm + FrontMatter(fm);
    assert m.Keys == pm.Keys + fm.Keys;
    assert ValueText(m["date"]) == FinalDate(pm, fm);
    match ParseIsoDate(FinalDate(pm, fm))
    case None =>
      assert Assemble(pm, fm) == Failure(BadDate(FinalDate(pm, fm)));
    case Some(d) =>
      var m2 := m["rfc_2822_date" := Str(Rfc2822(d))];
      assert Assemble(pm, fm).value == if "summary" in m2 then m2 else m2["summary" := Str("")];
  }

  /** Front matter overrides every path-derived key; `rfc_2822_date` is the
      one key it cannot set. Keys it does not set keep their path values. */
  lemma AssembleOverrides(pm: Meta, fm: map<string, string>, k: string)
    requires "date" in pm && Assemble(pm, fm).Success?
    requires k != "rfc_2822_date" && (k in fm || k in pm)
    ensures k in Assemble(pm, fm).value
    ensures Assemble(pm, fm).value[k] == if k in fm then Str(fm[k]) else pm[k]
  {
  }

  /** `rfc_2822_date` is the final date, formatted; `summary` is empty
      unless the front matter or the path metadata gives one. */
  lemma AssembleComputedKeys(pm: Meta, fm: map<string, string>)
    requires "date" in pm && "summary" !in pm && Assemble(pm, fm).Success?
    ensures ParseIsoDate(FinalDate(pm, fm)).Some?
    ensures Assemble(pm, fm).value["rfc_2822_date"] == Str(Rfc2822(ParseIsoDate(FinalDate(pm, fm)).value))
    ensures Assemble(pm, fm).value["summary"] == if "summary" in fm then Str(fm["summary"]) else Str("")
  {
    var m := pm + FrontMatter(fm);
    assert ValueText(m["date"]) == FinalDate(pm, fm);
    var d := ParseIsoDate(FinalDate(pm, fm)).value;
    var m2 := m["rfc_2822_date" := Str(Rfc2822(d))];
    assert Assemble(pm, fm).value == if "summary" in m2 then m2 else m2["summary" := Str("")];
    assert "summary" in m2 <==> "summary" in fm;
  }

  /** `Page.getmeta`; an error where it raises, which skips the page. */
  function GetMeta(path: string, modified: Date, fm: map<string, string>): (r: Result<Meta, PageError>)
    requires IsContentPath(path) && Valid(modified)
    ensures PathMeta(path, modified).None? <==> r == Failure(NoTitle(SplitExt(Basename(path)).0))
  {
    Finish(PathMeta(path, modified), SplitExt(Basename(path)).0, fm)
  }

  /** `getmeta` once the path is read: no match raises, naming the stem;
      otherwise the metadata is assembled. */
  function Finish(pm: Option<PathInfo>, stem: string, fm: map<string, string>): (r: Result<Meta, PageError>)
    ensures pm.None? <==> r == Failure(NoTitle(stem))
  {
    match pm
    case None => Failure(NoTitle(stem))
    case Some(p) => Assemble(AsMeta(p), fm)
  }

  /** A kept page has every path key, `rfc_2822_date` and `summary`, and a
      string date; its output path and category are the ones the path gives
      unless the front matter names others. */
  lemma GetMetaKeys(path: string, modified: Date, fm: map<string, string>)
    requires IsContentPath(path) && Valid(modified)
    requires GetMeta(path, modified, fm).Success?
    ensures var m := GetMeta(path, modified, fm).value;
            && {"date", "title", "relpath", "category", "rfc_2822_date", "summary"} <= m.Keys
            && m["date"].Str?
            && ("relpath" !in fm ==> m["relpath"] == Str(HtmlPath(RelPath(path))))
            && ("category" !in fm ==> m["category"] == Category(HtmlPath(RelPath(path))))
  {
    var p := PathMeta(path, modified).value;
    var pm := AsMeta(p);
    AssembleOutcome(pm, fm);
    AssembleOverrides(pm, fm, "date");
    AssembleOverrides(pm, fm, "relpath");
    AssembleOverrides(pm, fm, "category");
  }

  /** A dated file name gives the page its date and title. */
  lemma PathMetaDated(path: string, modified: Date, date: string, title: string)
    requires IsContentPath(path) && Valid(modified)
    requires SplitExt(Basename(path)).0 == date + "-" + title
    requires IsoShaped(date) && |title| > 0 && '\n' !in title
    ensures PathMeta(path, modified).Some?
    ensures PathMeta(path, modified).value.date == date
    ensures PathMeta(path, modified).value.title == title
  {
    SplitDateTitleDated(date, title);
  }

  /** An undated file name falls back to the modification date and keeps
      the whole stem as the title. */
  lemma PathMetaUndated(path: string, modified: Date)
    requires IsContentPath(path) && Valid(modified)
    requires var stem := SplitExt(Basename(path)).0;
             |stem| > 0 && '\n' !in stem && !(|stem| > 11 && IsoShaped(stem[..10]) && stem[10] == '-')
    ensures PathMeta(path, modified).Some?
    ensures PathMeta(path, modified).value.date == IsoDate(modified)
    ensures PathMeta(path, modified).value.title == SplitExt(Basename(path)).0
  {
    SplitDateTitleUndated(SplitExt(Basename(path)).0);
  }

  /** A file named after a day that does not exist (say 2023-02-30) is
      skipped unless its front matter gives another date. */
  lemma InvalidNameDateSkipped(path: string, modified: Date, date: string, title: string, fm: map<string, string>)
    requires IsContentPath(path) && Valid(modified)
    requires SplitExt(Basename(path)).0 == date + "-" + title
    requires IsoShaped(date) && |title| > 0 && '\n' !in title
    requires !Valid(IsoFields(date)) && "date" !in fm
    ensures GetMeta(path, modified, fm) == Failure(BadDate(date))
  {
    PathMetaDated(path, modified, date, title);
    ParseIsoShaped(date);
    var p := PathMeta(path, modified).value;
    AssembleOutcome(AsMeta(p), fm);
    assert FinalDate(AsMeta(p), fm) == date;
  }

  /** A page without a dated name and without a front-matter date is never
      skipped for its date: the modification date always parses. */
  lemma UndatedPageKept(path: string, modified: Date, fm: map<string, string>)
    requires IsContentPath(path) && Valid(modified)
    requires var stem := SplitExt(Basename(path)).0;
             |stem| > 0 && '\n' !in stem && !(|stem| > 11 && IsoShaped(stem[..10]) && stem[10] == '-')
    requires "date" !in fm
    ensures GetMeta(path, modified, fm).Success?
  {
    PathMetaUndated(path, modified);
    GetMetaMatched(path, modified, fm);
    var pm := AsMeta(PathMeta(path, modified).value);
    ParseIsoDateRoundTrip(modified);
    assert FinalDate(pm, fm) == IsoDate(modified);
    AssembleOutcome(pm, fm);
  }

  /** A page whose name matches is assembled from its path metadata. */
  lemma GetMetaMatched(path: string, modified: Date, fm: map<string, string>)
    requires IsContentPath(path) && Valid(modified) && PathMeta(path, modified).Some?
    ensures GetMeta(path, modified, fm) == Assemble(AsMeta(PathMeta(path, modified).value), fm)
  {
  }
}
