/**
 * The site build (`main`, `Page.write`, `Index.write`, `fwrite`): the global
 * context, the rendering contexts and their precedence, routing of pages to
 * the `page` or `post` layout, grouping of posts by category, the category
 * and home indexes, and the files written. The filesystem, pandoc, the
 * environment and the clock are inputs; the files written are the result.
 */
module Site {
  import opened Text
  import opened Wrappers
  import opened Template
  import opened Calendar
  import opened PageMeta
  import opened Layouts
  import opened DateSort

  /** The site URL when `MAKESITE_URL` is not set. */
  const DefaultUrl := "http://localhost:8000/"
  /** Where every file is written. */
  const OutputDir := "_site"
  /** The home index's title and length. */
  const HomeTitle := "Recent posts"
  const HomeSize := 10

  /** One file of the content directory with what the outside world gives
      about it: its modification date, its front matter and the HTML pandoc
      makes of its body. */
  datatype Source = Source(path: string, modified: Date, front: map<string, string>, html: string)

  /** A file written below the output directory. */
  datatype Output = Output(path: string, text: string)

  /** Why the build stops: a layout problem, or a metadata key that clashes
      with a keyword argument (`TypeError`). */
  datatype SiteError = LayoutFailure(cause: LayoutError) | MissingIndexLayout(name: string) | ContextClash(key: string)

  /** A source as the recursive glob yields it, with a real modification date. */
  predicate GoodSource(src: Source) {
    IsContentPath(src.path) && Valid(src.modified)
  }

  predicate AllGood(sources: seq<Source>) {
    forall i :: 0 <= i < |sources| ==> GoodSource(sources[i])
  }

  /** `fwrite(output, dst)`: the file `_site/<dst>`. */
  function Fwrite(text: string, dst: string): Output {
    Output(OutputDir + "/" + dst, text)
  }

  /** Where the outputs are written, in order. */
  function PathsOf(outs: seq<Output>): (r: seq<string>)
    ensures |r| == |outs|
  {
    if |outs| == 0 then [] else [outs[0].path] + PathsOf(outs[1..])
  }

  lemma {:induction false} PathsOfAppend(a: seq<Output>, b: seq<Output>)
    ensures PathsOf(a + b) == PathsOf(a) + PathsOf(b)
  {
    if |a| > 0 {
      assert (a + b)[0] == a[0] && (a + b)[1..] == a[1..] + b;
      PathsOfAppend(a[1..], b);
    } else {
      assert a + b == b;
    }
  }

  // ---------------------------------------------------------------------------
  // Contexts
  // ---------------------------------------------------------------------------

  /** The global context: the site URL from the environment (or the default)
      and the current year, as the renderer prints them. */
  function GlobalContext(env: Option<string>, year: nat): (r: map<string, string>)
    ensures r.Keys == {"site_url", "current_year"}
    ensures r["site_url"] == if env.Some? then env.value else DefaultUrl
    ensures AllDigits(r["current_year"]) && DigitsValue(r["current_year"]) == year
    ensures IndexGlobals(r) && "title" !in r
  {
    NatToStringRoundTrip(year);
    map["site_url" := env.GetOr(DefaultUrl), "current_year" := NatToString(year)]
  }

  /** The metadata as the renderer prints it (`str` of each value). */
  function Texts(m: Meta): (r: map<string, string>)
    ensures r.Keys == m.Keys
    ensures forall k :: k in m ==> r[k] == ValueText(m[k])
  {
    map k | k in m :: ValueText(m[k])
  }

  /** `dict(gcontext, content=html, **meta)`. A `content` key in the
      metadata is a second value for the keyword (a `TypeError`). */
  function PageContext(g: map<string, string>, html: string, m: Meta): (r: map<string, string>)
    requires "content" !in m
  {
    g["content" := html] + Texts(m)
  }

  /** Metadata overrides the page body, which overrides the global context. */
  lemma PageContextPrecedence(g: map<string, string>, html: string, m: Meta, k: string)
    requires "content" !in m
    ensures k in PageContext(g, html, m) <==> k in m || k == "content" || k in g
    ensures k in m ==> PageContext(g, html, m)[k] == ValueText(m[k])
    ensures k !in m && k == "content" ==> PageContext(g, html, m)[k] == html
    ensures k !in m && k != "content" && k in g ==> PageContext(g, html, m)[k] == g[k]
  {
  }

  /** `dict(gcontext, **item)` */
  function ItemContext(g: map<string, string>, item: Meta): map<string, string> {
    g + Texts(item)
  }

  /** Item fields override the global context. */
  lemma ItemContextPrecedence(g: map<string, string>, item: Meta, k: string)
    ensures k in ItemContext(g, item) <==> k in item || k in g
    ensures k in item ==> ItemContext(g, item)[k] == ValueText(item[k])
    ensures k !in item && k in g ==> ItemContext(g, item)[k] == g[k]
  {
  }

  /** The global context of an index: none of the keyword arguments the list
      rendering adds, and no `template` (the renderer's own parameter). */
  predicate IndexGlobals(g: map<string, string>) {
    "content" !in g && "rsspath" !in g && "template" !in g
  }

  /** `content=..., rsspath=..., **gcontext` of the list and feed renderings. */
  function ListContext(g: map<string, string>, content: string, rsspath: string): (r: map<string, string>)
    requires IndexGlobals(g)
    ensures r.Keys == g.Keys + {"content", "rsspath"}
    ensures r["content"] == content && r["rsspath"] == rsspath
    ensures forall k :: k in g ==> r[k] == g[k]
  {
    g["content" := content]["rsspath" := rsspath]
  }

  // ---------------------------------------------------------------------------
  // Pages
  // ---------------------------------------------------------------------------

  /** A content file after `Page(src)`: its metadata, or the error that made
      the loop skip it. */
  datatype Loaded = Loaded(path: string, html: string, meta: Result<Meta, PageError>)

  /** The metadata of a kept page has the keys the build reads. */
  predicate WellKept(l: Loaded) {
    l.meta.Success? ==> "relpath" in l.meta.value && "date" in l.meta.value && "category" in l.meta.value
  }

  predicate AllKept(ls: seq<Loaded>) {
    forall i :: 0 <= i < |ls| ==> WellKept(ls[i])
  }

  /** `Page(src)`: the metadata is read once, here. */
  function Read(src: Source): (r: Loaded)
    requires GoodSource(src)
    ensures r.path == src.path && r.html == src.html
    ensures r.meta == GetMeta(src.path, src.modified, src.front)
    ensures WellKept(r)
  {
    var m := GetMeta(src.path, src.modified, src.front);
    if m.Success? then
      GetMetaKeys(src.path, src.modified, src.front);
      Loaded(src.path, src.html, m)
    else
      Loaded(src.path, src.html, m)
  }

  function ReadAll(sources: seq<Source>): (r: seq<Loaded>)
    requires AllGood(sources)
    ensures |r| == |sources| && AllKept(r)
    ensures forall i :: 0 <= i < |sources| ==> r[i] == Read(sources[i])
  {
    seq(|sources|, i requires 0 <= i < |sources| => Read(sources[i]))
  }

  /** What becomes of one content file: skipped (its metadata raised), a
      root page, or a post that is also listed in its category. */
  datatype Route = Skipped(error: PageError) | Root(meta: Meta) | Post(meta: Meta)

  /** A page directly in the content directory is a root page. */
  function RouteOf(l: Loaded): (r: Route)
    ensures r.Skipped? <==> l.meta.Failure?
    ensures !r.Skipped? ==> r.meta == l.meta.value && (r.Root? <==> Dirname(l.path) == ContentDir)
  {
    match l.meta
    case Failure(e) => Skipped(e)
    case Success(m) => if Dirname(l.path) == ContentDir then Root(m) else Post(m)
  }

  /** A kept page is a root page exactly when its path inside the content
      directory has a single component, and then (unless the front matter
      names a category) exactly when its category is `None`. */
  lemma RouteOfSource(src: Source)
    requires GoodSource(src) && Read(src).meta.Success?
    ensures RouteOf(Read(src)).Root? <==> '/' !in RelPath(src.path)
    ensures RouteOf(Read(src)).Post? <==> '/' in RelPath(src.path)
    ensures "category" !in src.front ==> (RouteOf(Read(src)).Root? <==> CategoryOf(RouteOf(Read(src)).meta) == Null)
  {
    TopLevelIffFlat(src.path);
    if "category" !in src.front {
      GetMetaKeys(src.path, src.modified, src.front);
      TopLevelIffNoCategory(src.path);
    }
  }

  /** A post's category is the directory it sits in, unless the front matter
      names another; it is never `None`. */
  lemma PostCategory(src: Source)
    requires GoodSource(src) && RouteOf(Read(src)).Post? && "category" !in src.front
    ensures CategoryOf(RouteOf(Read(src)).meta) == Category(HtmlPath(RelPath(src.path)))
    ensures CategoryOf(RouteOf(Read(src)).meta).Str?
  {
    GetMetaKeys(src.path, src.modified, src.front);
    TopLevelIffNoCategory(src.path);
  }

  /** `Page.write(layout, **gcontext)`: the page rendered into its layout and
      written at its `relpath`. */
  function PageWrite(layout: string, g: map<string, string>, html: string, m: Meta): Result<Output, SiteError>
    requires "relpath" in m
  {
    if "content" in m then Failure(ContextClash("content"))
    else if "template" in m then Failure(ContextClash("template"))
    else Success(Fwrite(Render(layout, PageContext(g, html, m)), ValueText(m["relpath"])))
  }

  /** A page whose metadata would collide with the keys `Page.write` and
      `render` pass by name. */
  predicate Clashes(m: Meta) {
    "content" in m || "template" in m
  }

  /** The metadata of the pages that are written, in order. */
  function Kept(ls: seq<Loaded>): seq<Meta> {
    if |ls| == 0 then []
    else (if ls[0].meta.Success? then [ls[0].meta.value] else []) + Kept(ls[1..])
  }

  /** The metadata of the posts, in order: what the category lists collect. */
  function Posts(ls: seq<Loaded>): seq<Meta> {
    if |ls| == 0 then []
    else (if RouteOf(ls[0]).Post? then [ls[0].meta.value] else []) + Posts(ls[1..])
  }

  /** The loop over the content files: every kept page is written, root pages
      with the `page` layout and posts with the `post` layout. */
  function PageWrites(lay: LayoutMap, g: map<string, string>, ls: seq<Loaded>): Result<seq<Output>, SiteError>
    requires "page" in lay && "post" in lay && AllKept(ls)
  {
    if |ls| == 0 then Success([])
    else
      var l := ls[0];
      assert WellKept(l);
      match RouteOf(l)
      case Skipped(_) => PageWrites(lay, g, ls[1..])
      case Root(m) =>
        var o :- PageWrite(lay["page"], g, l.html, m);
        var os :- PageWrites(lay, g, ls[1..]);
        Success([o] + os)
      case Post(m) =>
        var o :- PageWrite(lay["post"], g, l.html, m);
        var os :- PageWrites(lay, g, ls[1..]);
        Success([o] + os)
  }

  /** `_site/` followed by each page's `relpath`. */
  function PagePaths(ms: seq<Meta>): seq<string> {
    if |ms| == 0 then []
    else [OutputDir + "/" + ValueText(if "relpath" in ms[0] then ms[0]["relpath"] else Null)] + PagePaths(ms[1..])
  }

  /** Every kept page is written, in order, at `_site/` followed by its
      `relpath`, and nothing else is written. */
  lemma {:induction false} PageWritesPaths(lay: LayoutMap, g: map<string, string>, ls: seq<Loaded>)
    requires "page" in lay && "post" in lay && AllKept(ls)
    requires PageWrites(lay, g, ls).Success?
    ensures PathsOf(PageWrites(lay, g, ls).value) == PagePaths(Kept(ls))
  {
    if |ls| > 0 {
      var l := ls[0];
      assert WellKept(l);
      PageWritesPaths(lay, g, ls[1..]);
      var rest := PageWrites(lay, g, ls[1..]).value;
      var k := Kept(ls[1..]);
      if l.meta.Success? {
        var m := l.meta.value;
        var layout := if RouteOf(l).Root? then lay["page"] else lay["post"];
        var o := PageWrite(layout, g, l.html, m).value;
        assert PageWrites(lay, g, ls).value == [o] + rest;
        assert Kept(ls) == [m] + k;
        assert ([m] + k)[0] == m && ([m] + k)[1..] == k;
        assert ([o] + rest)[0] == o && ([o] + rest)[1..] == rest;
      } else {
        assert Kept(ls) == [] + k == k;
      }
    }
  }

  /** The build stops exactly when a kept page's metadata has a `content` or
      `template` key. */
  lemma {:induction false} PageWritesClash(lay: LayoutMap, g: map<string, string>, ls: seq<Loaded>)
    requires "page" in lay && "post" in lay && AllKept(ls)
    ensures PageWrites(lay, g, ls).Success? <==> forall m | m in Kept(ls) :: !Clashes(m)
  {
    if |ls| > 0 {
      var l := ls[0];
      assert WellKept(l);
      PageWritesClash(lay, g, ls[1..]);
      var k := Kept(ls);
      var kr := Kept(ls[1..]);
      if l.meta.Success? {
        var m := l.meta.value;
        var layout := if RouteOf(l).Root? then lay["page"] else lay["post"];
        assert PageWrite(layout, g, l.html, m).Success? <==> !Clashes(m);
        assert PageWrites(lay, g, ls).Success? <==>
                 PageWrite(layout, g, l.html, m).Success? && PageWrites(lay, g, ls[1..]).Success?;
        assert k == [m] + kr;
      } else {
        assert k == [] + kr == kr;
      }
    }
  }

  // ---------------------------------------------------------------------------
  // Categories
  // ---------------------------------------------------------------------------

  /** `cats`: each category with its posts, categories in order of first
      appearance (the iteration order of the dictionary). */
  type Groups = seq<(Value, seq<Meta>)>

  function CategoryOf(m: Meta): Value {
    if "category" in m then m["category"] else Null
  }

  /** The sort key, `item["date"]`. */
  function DateKey(m: Meta): string {
    if "date" in m then ValueText(m["date"]) else ""
  }

  /** The first position of category `c`, or -1. */
  function Find(gs: Groups, c: Value): (r: int)
    ensures -1 <= r < |gs|
    ensures r >= 0 ==> gs[r].0 == c && forall i :: 0 <= i < r ==> gs[i].0 != c
    ensures r == -1 ==> forall i :: 0 <= i < |gs| ==> gs[i].0 != c
  {
    if |gs| == 0 then -1
    else if gs[0].0 == c then 0
    else
      var r := Find(gs[1..], c);
      if r < 0 then -1 else r + 1
  }

  /** `Find` is the first position of its key. */
  lemma FindAt(gs: Groups, c: Value, j: nat)
    requires j < |gs| && gs[j].0 == c && forall i :: 0 <= i < j ==> gs[i].0 != c
    ensures Find(gs, c) == j
  {
  }

  /** `cats[c]` of the defaultdict: the empty list for a new category. */
  function Lookup(gs: Groups, c: Value): seq<Meta> {
    var i := Find(gs, c);
    if i < 0 then [] else gs[i].1
  }

  /** `cats[page.meta["category"]].append(page.meta)` */
  function Append(gs: Groups, m: Meta): Groups {
    var c := CategoryOf(m);
    var i := Find(gs, c);
    if i < 0 then gs + [(c, [m])] else gs[i := (c, gs[i].1 + [m])]
  }

  /** The category lists after all posts have been appended, in order. */
  function Group(posts: seq<Meta>): Groups {
    if |posts| == 0 then [] else Append(Group(posts[..|posts| - 1]), posts[|posts| - 1])
  }

  ghost predicate DistinctKeys(gs: Groups) {
    forall i, j :: 0 <= i < j < |gs| ==> gs[i].0 != gs[j].0
  }

  /** Appending keeps the category names distinct, adds `m` to the list of
      its category and leaves every other list alone. */
  lemma AppendLookup(gs: Groups, m: Meta, c: Value)
    requires DistinctKeys(gs)
    ensures DistinctKeys(Append(gs, m))
    ensures Lookup(Append(gs, m), c) == Lookup(gs, c) + (if CategoryOf(m) == c then [m] else [])
  {
    var cm := CategoryOf(m);
    var i := Find(gs, cm);
    var hs := Append(gs, m);
    var j := Find(gs, c);
    assert |hs| >= |gs| && forall n :: 0 <= n < |gs| ==> hs[n].0 == gs[n].0;
    if i < 0 {
      assert hs == gs + [(cm, [m])] && hs[|gs|].0 == cm;
      if c == cm {
        FindAt(hs, c, |gs|);
      } else if j >= 0 {
        FindAt(hs, c, j);
      } else {
        assert forall n :: 0 <= n < |hs| ==> hs[n].0 != c;
      }
    } else {
      assert |hs| == |gs|;
      if j >= 0 {
        FindAt(hs, c, j);
      } else {
        assert forall n :: 0 <= n < |hs| ==> hs[n].0 != c;
      }
    }
  }

  /** Each category's list is exactly its posts in their original order,
      and the category names are distinct. */
  lemma {:induction false} GroupLookup(posts: seq<Meta>, c: Value)
    ensures DistinctKeys(Group(posts))
    ensures Lookup(Group(posts), c) == WithKey(posts, CategoryOf, c)
  {
    if |posts| == 0 {
      assert Find([], c) == -1;
    } else {
      var init, last := posts[..|posts| - 1], posts[|posts| - 1];
      GroupLookup(init, c);
      AppendLookup(Group(init), last, c);
      assert posts == init + [last];
      WithKeyAppend(init, [last], CategoryOf, c);
    }
  }

  /** `itertools.chain(*cats.values())` */
  function Flatten(gs: Groups): seq<Meta> {
    if |gs| == 0 then [] else gs[0].1 + Flatten(gs[1..])
  }

  lemma {:induction false} FlattenSnoc(gs: Groups, e: (Value, seq<Meta>))
    ensures Flatten(gs + [e]) == Flatten(gs) + e.1
  {
    if |gs| > 0 {
      assert (gs + [e])[1..] == gs[1..] + [e];
      FlattenSnoc(gs[1..], e);
    } else {
      assert gs + [e] == [e];
    }
  }

  /** Appending to one list adds the post once to the flattened lists. */
  lemma {:induction false} FlattenExtend(gs: Groups, i: nat, m: Meta)
    requires i < |gs|
    ensures multiset(Flatten(gs[i := (gs[i].0, gs[i].1 + [m])])) == multiset(Flatten(gs)) + multiset{m}
  {
    var hs := gs[i := (gs[i].0, gs[i].1 + [m])];
    assert Flatten(gs) == gs[0].1 + Flatten(gs[1..]);
    assert Flatten(hs) == hs[0].1 + Flatten(hs[1..]);
    if i > 0 {
      assert hs[1..] == gs[1..][i - 1 := (gs[i].0, gs[i].1 + [m])];
      assert gs[1..][i - 1] == gs[i];
      FlattenExtend(gs[1..], i - 1, m);
      assert hs[0] == gs[0];
      calc {
        multiset(Flatten(hs));
        multiset(gs[0].1) + multiset(Flatten(hs[1..]));
        multiset(gs[0].1) + (multiset(Flatten(gs[1..])) + multiset{m});
        multiset(Flatten(gs)) + multiset{m};
      }
    } else {
      assert hs[1..] == gs[1..];
      calc {
        multiset(Flatten(hs));
        multiset(gs[0].1 + [m]) + multiset(Flatten(gs[1..]));
        multiset(gs[0].1) + multiset{m} + multiset(Flatten(gs[1..]));
        multiset(Flatten(gs)) + multiset{m};
      }
    }
  }

  /** Appending adds the post once to the category lists. */
  lemma AppendPermutes(gs: Groups, m: Meta)
    ensures multiset(Flatten(Append(gs, m))) == multiset(Flatten(gs)) + multiset{m}
  {
    var c := CategoryOf(m);
    var i := Find(gs, c);
    if i < 0 {
      FlattenSnoc(gs, (c, [m]));
    } else {
      assert Append(gs, m) == gs[i := (gs[i].0, gs[i].1 + [m])];
      FlattenExtend(gs, i, m);
    }
  }

  /** All posts, each once, are in the category lists. */
  lemma {:induction false} GroupPermutes(posts: seq<Meta>)
    ensures multiset(Flatten(Group(posts))) == multiset(posts)
  {
    if |posts| > 0 {
      var init, last := posts[..|posts| - 1], posts[|posts| - 1];
      GroupPermutes(init);
      AppendPermutes(Group(init), last);
      assert posts == init + [last];
    }
  }

  // ---------------------------------------------------------------------------
  // Indexes
  // ---------------------------------------------------------------------------

  /** Every item rendered with layout `name`, in order. */
  function RenderItems(lay: LayoutMap, name: string, items: seq<Meta>, g: map<string, string>): seq<string>
    requires |items| > 0 ==> name in lay
  {
    seq(|items|, i requires 0 <= i < |items| => Render(lay[name], ItemContext(g, items[i])))
  }

  /** `Index.write(items, path, **gcontext)`: the listing at
      `<path>/index.html` and the feed at `<path>/rss.xml`. The item layouts
      are only read when there are items. */
  function IndexWrite(lay: LayoutMap, items: seq<Meta>, path: string, g: map<string, string>): Result<seq<Output>, SiteError>
    requires IndexGlobals(g)
  {
    var rsspath := path + "/rss.xml";
    if |items| > 0 && "item" !in lay then Failure(MissingIndexLayout("item"))
    else if exists i :: 0 <= i < |items| && "template" in items[i] then Failure(ContextClash("template"))
    else if "list" !in lay then Failure(MissingIndexLayout("list"))
    else if |items| > 0 && "itemxml" !in lay then Failure(MissingIndexLayout("itemxml"))
    else if "feedxml" !in lay then Failure(MissingIndexLayout("feedxml"))
    else
      var html := Concat(RenderItems(lay, "item", items, g));
      var xml := Concat(RenderItems(lay, "itemxml", items, g));
      Success([Fwrite(Render(lay["list"], ListContext(g, html, rsspath)), path + "/index.html"),
               Fwrite(Render(lay["feedxml"], ListContext(g, xml, rsspath)), rsspath)])
  }

  /** An index succeeds exactly when the layouts it reads exist and no item
      has a `template` key. It then writes the listing and the feed, and both
      are rendered with `rsspath` set to the path the feed is written at,
      below the output directory. */
  lemma IndexWriteOutcome(lay: LayoutMap, items: seq<Meta>, path: string, g: map<string, string>)
    requires IndexGlobals(g)
    ensures IndexWrite(lay, items, path, g).Success? <==>
              && "list" in lay && "feedxml" in lay
              && (|items| > 0 ==> "item" in lay && "itemxml" in lay)
              && forall i :: 0 <= i < |items| ==> "template" !in items[i]
    ensures IndexWrite(lay, items, path, g).Success? ==>
              var out := IndexWrite(lay, items, path, g).value;
              && |out| == 2
              && out[0].path == OutputDir + "/" + (path + "/index.html")
              && out[1].path == OutputDir + "/" + (path + "/rss.xml")
              && var rsspath := out[1].path[|OutputDir| + 1..];
                 && out[0].text == Render(lay["list"], ListContext(g, Concat(RenderItems(lay, "item", items, g)), rsspath))
                 && out[1].text == Render(lay["feedxml"], ListContext(g, Concat(RenderItems(lay, "itemxml", items, g)), rsspath))
  {
    if IndexWrite(lay, items, path, g).Success? {
      var rsspath := path + "/rss.xml";
      assert (OutputDir + "/" + rsspath)[|OutputDir| + 1..] == rsspath;
    }
  }

  /** The category indexes, one per category in order of first appearance,
      each listing its posts by `date` string, greatest first. */
  function CategoryIndexes(lay: LayoutMap, g: map<string, string>, gs: Groups): Result<seq<Output>, SiteError>
    requires IndexGlobals(g)
  {
    if |gs| == 0 then Success([])
    else
      var name := ValueText(gs[0].0);
      var out :- IndexWrite(lay, SortDesc(gs[0].1, DateKey), name, g["title" := Capitalize(name)]);
      var rest :- CategoryIndexes(lay, g, gs[1..]);
      Success(out + rest)
  }

  /** `_site/<category>/index.html` and `_site/<category>/rss.xml` for each
      category in turn. */
  function IndexPaths(gs: Groups): seq<string> {
    if |gs| == 0 then []
    else
      var name := ValueText(gs[0].0);
      [OutputDir + "/" + (name + "/index.html"), OutputDir + "/" + (name + "/rss.xml")] + IndexPaths(gs[1..])
  }

  /** Two files per category, in order of first appearance. */
  lemma {:induction false} CategoryIndexesPaths(lay: LayoutMap, g: map<string, string>, gs: Groups)
    requires IndexGlobals(g) && CategoryIndexes(lay, g, gs).Success?
    ensures PathsOf(CategoryIndexes(lay, g, gs).value) == IndexPaths(gs)
  {
    if |gs| > 0 {
      var name := ValueText(gs[0].0);
      var gt := g["title" := Capitalize(name)];
      IndexWriteOutcome(lay, SortDesc(gs[0].1, DateKey), name, gt);
      CategoryIndexesPaths(lay, g, gs[1..]);
      var out := IndexWrite(lay, SortDesc(gs[0].1, DateKey), name, gt).value;
      var rest := CategoryIndexes(lay, g, gs[1..]).value;
      assert CategoryIndexes(lay, g, gs).value == out + rest;
      PathsOfAppend(out, rest);
      assert PathsOf(out) == [out[0].path, out[1].path] by {
        assert out[1..][1..] == [];
      }
    }
  }

  /** The home index: the ten posts of all categories with the greatest `date` string. */
  function HomeItems(gs: Groups): seq<Meta> {
    Take(SortDesc(Flatten(gs), DateKey), HomeSize)
  }

  // ---------------------------------------------------------------------------
  // The whole build
  // ---------------------------------------------------------------------------

  /** `main`: load and build the layouts, then write the site. */
  function Site(files: seq<(string, string)>, categories: seq<string>, sources: seq<Source>,
                env: Option<string>, year: nat): Result<seq<Output>, SiteError>
    requires AllGood(sources)
  {
    match Load(files)
    case Failure(e) => Failure(LayoutFailure(e))
    case Success(stored) =>
      match Build(stored, categories)
      case Failure(e) => Failure(LayoutFailure(e))
      case Success(lay) =>
        Generate(lay, ReadAll(sources), GlobalContext(env, year))
  }

  /** The rest of `main` with built layouts: write every page, then the
      category indexes, then the home index. */
  function Generate(lay: LayoutMap, ls: seq<Loaded>, g: map<string, string>): Result<seq<Output>, SiteError>
    requires "page" in lay && "post" in lay && AllKept(ls) && IndexGlobals(g) && "title" !in g
  {
    var pages :- PageWrites(lay, g, ls);
    var gs := Group(Posts(ls));
    var cats :- CategoryIndexes(lay, g, gs);
    var home :- IndexWrite(lay, HomeItems(gs), "", g["title" := HomeTitle]);
    Success(pages + cats + home)
  }

  /** A successful build writes the kept pages first, at their `relpath`s,
      then two files per category, then the home listing and feed, at
      `_site//index.html` and `_site//rss.xml`. */
  lemma GenerateOutputs(lay: LayoutMap, ls: seq<Loaded>, g: map<string, string>)
    requires "page" in lay && "post" in lay && AllKept(ls) && IndexGlobals(g) && "title" !in g
    requires Generate(lay, ls, g).Success?
    ensures PathsOf(Generate(lay, ls, g).value)
         == PagePaths(Kept(ls)) + IndexPaths(Group(Posts(ls))) + [OutputDir + "//index.html", OutputDir + "//rss.xml"]
  {
    var gs := Group(Posts(ls));
    var pages := PageWrites(lay, g, ls).value;
    var cats := CategoryIndexes(lay, g, gs).value;
    var home := IndexWrite(lay, HomeItems(gs), "", g["title" := HomeTitle]).value;
    assert Generate(lay, ls, g).value == pages + cats + home;
    PageWritesPaths(lay, g, ls);
    CategoryIndexesPaths(lay, g, gs);
    IndexWriteOutcome(lay, HomeItems(gs), "", g["title" := HomeTitle]);
    PathsOfAppend(pages + cats, home);
    PathsOfAppend(pages, cats);
    assert PathsOf(home) == [home[0].path, home[1].path] by {
      assert home[1..][1..] == [];
    }
    HomePaths();
  }

  lemma HomePaths()
    ensures OutputDir + "/" + ("" + "/index.html") == OutputDir + "//index.html"
    ensures OutputDir + "/" + ("" + "/rss.xml") == OutputDir + "//rss.xml"
  {
  }

  /** Whether some layout file is stored under `key`. */
  predicate HasLayout(files: seq<(string, string)>, key: string) {
    exists i :: 0 <= i < |files| && LayoutKey(files[i].0) == key
  }

  /** The build stops before writing any page or index when a layout file
      names an attribute the object refuses, when no layout file gives
      `page`, `post` or `list`, or when one gives `build`; otherwise the
      pages and indexes are written with the built layouts. */
  lemma SiteLayouts(files: seq<(string, string)>, categories: seq<string>, sources: seq<Source>,
                    env: Option<string>, year: nat)
    requires AllGood(sources)
    ensures HasRefused(files) ==> Site(files, categories, sources, env, year).Failure?
                                  && Site(files, categories, sources, env, year).error.LayoutFailure?
                                  && Site(files, categories, sources, env, year).error.cause.Unsettable?
    ensures HasLayout(files, "build") || !HasLayout(files, "page") || !HasLayout(files, "post") || !HasLayout(files, "list")
            ==> Site(files, categories, sources, env, year).Failure?
                && Site(files, categories, sources, env, year).error.LayoutFailure?
    ensures !HasRefused(files) && HasLayout(files, "build")
            ==> Site(files, categories, sources, env, year) == Failure(LayoutFailure(BuildShadowed))
    ensures !HasRefused(files) && !HasLayout(files, "build") && HasLayout(files, "page") && HasLayout(files, "post") && HasLayout(files, "list")
            ==> Load(files).Success? && Build(Load(files).value, categories).Success?
                && Site(files, categories, sources, env, year)
                   == Generate(Build(Load(files).value, categories).value, ReadAll(sources), GlobalContext(env, year))
  {
    LoadedLayouts(files);
    var l := Load(files);
    if l.Success? {
      var b := Build(l.value, categories);
      if HasLayout(files, "build") {
        assert b == Failure(BuildShadowed);
      }
    }
  }

  lemma LoadedLayouts(files: seq<(string, string)>)
    ensures Load(files).Success? <==> !HasRefused(files)
    ensures Load(files).Success? ==> ("build" in Load(files).value <==> HasLayout(files, "build"))
    ensures Load(files).Success? ==> ("page" in Load(files).value <==> HasLayout(files, "page"))
    ensures Load(files).Success? ==> ("post" in Load(files).value <==> HasLayout(files, "post"))
    ensures Load(files).Success? ==> ("list" in Load(files).value <==> HasLayout(files, "list"))
  {
    LoadKeys(files, "build");
    LoadKeys(files, "page");
    LoadKeys(files, "post");
    LoadKeys(files, "list");
  }

  // ---------------------------------------------------------------------------
  // What the indexes list
  // ---------------------------------------------------------------------------

  /** The posts are exactly the kept pages outside the top of the content
      directory. */
  lemma {:induction false} PostsMembers(ls: seq<Loaded>, m: Meta)
    ensures m in Posts(ls) <==> exists i :: 0 <= i < |ls| && RouteOf(ls[i]) == Post(m)
  {
    if |ls| > 0 {
      PostsMembers(ls[1..], m);
      if exists i :: 0 <= i < |ls| && RouteOf(ls[i]) == Post(m) {
        var i :| 0 <= i < |ls| && RouteOf(ls[i]) == Post(m);
        if i > 0 {
          assert ls[1..][i - 1] == ls[i];
        }
      }
      if m in Posts(ls[1..]) {
        var i :| 0 <= i < |ls[1..]| && RouteOf(ls[1..][i]) == Post(m);
        assert ls[i + 1] == ls[1..][i];
      }
    }
  }

  /** An item is listed in some category exactly when it is the metadata of
      a post: root pages are in no index. */
  lemma IndexedIffPost(ls: seq<Loaded>, m: Meta)
    ensures m in Flatten(Group(Posts(ls))) <==> exists i :: 0 <= i < |ls| && RouteOf(ls[i]) == Post(m)
  {
    GroupPermutes(Posts(ls));
    PostsMembers(ls, m);
    assert m in Flatten(Group(Posts(ls))) <==> m in multiset(Flatten(Group(Posts(ls))));
  }

  /** A page at the top of the content directory is listed in no index
      (unless another page, a post, has the very same metadata). */
  lemma RootPageNotIndexed(ls: seq<Loaded>, i: nat)
    requires i < |ls| && RouteOf(ls[i]).Root?
    requires forall j :: 0 <= j < |ls| && RouteOf(ls[j]).Post? ==> RouteOf(ls[j]).meta != RouteOf(ls[i]).meta
    ensures RouteOf(ls[i]).meta !in Flatten(Group(Posts(ls)))
  {
    IndexedIffPost(ls, RouteOf(ls[i]).meta);
  }

  /** A category index lists exactly that category's posts: a permutation,
      greatest `date` string first, posts of the same date in the order they
      were read; and
      no other order has these properties. */
  lemma CategoryIndexOrder(ls: seq<Loaded>, c: Value)
    ensures var items := SortDesc(Lookup(Group(Posts(ls)), c), DateKey);
            var own := WithKey(Posts(ls), CategoryOf, c);
            && multiset(items) == multiset(own)
            && SortedDesc(items, DateKey)
            && SameRuns(items, own, DateKey)
    ensures forall r :: SortedDesc(r, DateKey) && SameRuns(r, WithKey(Posts(ls), CategoryOf, c), DateKey) ==>
              r == SortDesc(Lookup(Group(Posts(ls)), c), DateKey)
  {
    var own := WithKey(Posts(ls), CategoryOf, c);
    GroupLookup(Posts(ls), c);
    SortDescCorrect(own, DateKey);
    forall r | SortedDesc(r, DateKey) && SameRuns(r, own, DateKey)
      ensures r == SortDesc(own, DateKey)
    {
      SortedUnique(r, SortDesc(own, DateKey), own, DateKey);
    }
  }

  /** The home index has the ten posts with the greatest `date` string
      (all of them when there are fewer), greatest first, as a prefix of all
      posts sorted; no post left out has a greater `date` than one listed. */
  lemma HomeIndex(ls: seq<Loaded>)
    ensures var all := SortDesc(Flatten(Group(Posts(ls))), DateKey);
            var home := HomeItems(Group(Posts(ls)));
            && |home| == (if |Posts(ls)| < HomeSize then |Posts(ls)| else HomeSize)
            && home == all[..|home|]
            && multiset(all) == multiset(Posts(ls))
            && SortedDesc(home, DateKey)
            && forall i, j :: 0 <= i < |home| <= j < |all| ==> !Less(DateKey(home[i]), DateKey(all[j]))
  {
    var flat := Flatten(Group(Posts(ls)));
    var all := SortDesc(flat, DateKey);
    GroupPermutes(Posts(ls));
    SortDescCorrect(flat, DateKey);
    assert |flat| == |Posts(ls)| by {
      assert |multiset(flat)| == |multiset(Posts(ls))|;
    }
    TakeSortedTop(all, DateKey, HomeSize);
    var home := HomeItems(Group(Posts(ls)));
    forall i, j | 0 <= i < j < |home|
      ensures !Less(DateKey(home[i]), DateKey(home[j]))
    {
      assert home[i] == all[i] && home[j] == all[j];
    }
  }
}
