/**
 * The layouts: `Layouts.load` names each file of the layout directory, and
 * `Layouts.build` composes the page shell with the menu and embeds the post
 * and list layouts in it. Layouts are the object's attributes, so they are
 * modelled as a map from attribute name to text.
 */
module Layouts {
  import opened Text
  import opened Wrappers
  import opened Template

  type LayoutMap = map<string, string>

  /** Why loading or building fails: a layout file names an attribute the
      object refuses to set, a layout the build reads is missing, or a
      layout called `build` has replaced the method about to be called. */
  datatype LayoutError = Unsettable(name: string) | MissingLayout(name: string) | BuildShadowed

  /** The attribute names `setattr` refuses on an ordinary object with a
      string value: `__class__` takes only a class, `__dict__` only a dict,
      and `__weakref__` is read-only. */
  predicate Refused(key: string) {
    key == "__class__" || key == "__dict__" || key == "__weakref__"
  }

  /** `s.lstrip(c)` */
  function LStrip(s: string, c: char): (r: string)
    ensures |r| <= |s| && r == s[|s| - |r|..]
    ensures |r| > 0 ==> r[0] != c
    ensures forall i :: 0 <= i < |s| - |r| ==> s[i] == c
  {
    if |s| == 0 || s[0] != c then s else LStrip(s[1..], c)
  }

  /** The attribute a layout file is stored under: the stem for `.html`
      files, otherwise the stem followed by the extension without its dot. */
  function LayoutKey(path: string): string {
    var (name, ext) := SplitExt(Basename(path));
    if ext == ".html" then name else name + LStrip(ext, '.')
  }

  /** The key is the file name with the dot of its extension dropped, and
      for HTML files with the extension dropped altogether. */
  lemma LayoutKeyShape(path: string)
    ensures var (name, ext) := SplitExt(Basename(path));
            LayoutKey(path) == if ext == ".html" then name
                               else if ext == "" then Basename(path)
                               else name + ext[1..]
  {
    var (name, ext) := SplitExt(Basename(path));
    if ext != "" && ext != ".html" {
      assert ext[1..] == [] || ext[1..][0] != '.' by {
        if |ext[1..]| > 0 {
          assert ext[1..][0] in ext[1..];
        }
      }
      assert LStrip(ext[1..], '.') == ext[1..];
    }
  }

  /** A file `dir/name.ext` with a plain name and extension is stored under
      `name` for HTML and under `name` followed by the extension otherwise. */
  lemma LayoutKeyOf(dir: string, name: string, ext: string)
    requires '/' !in name && '.' !in name && |name| > 0
    requires |ext| > 1 && ext[0] == '.' && '.' !in ext[1..] && '/' !in ext
    ensures LayoutKey(dir + "/" + name + ext) == if ext == ".html" then name else name + ext[1..]
  {
    var p := dir + "/" + name + ext;
    assert p == dir + "/" + (name + ext);
    BasenameUnder(dir, name + ext);
    SplitExtPlain(name, ext);
    LayoutKeyShape(p);
  }

  /** `page.html` is the layout `page`, in any directory. */
  lemma LayoutKeyPage(dir: string)
    ensures LayoutKey(dir + "/page.html") == "page"
  {
    assert dir + "/page.html" == dir + "/" + "page" + ".html";
    LayoutKeyOf(dir, "page", ".html");
  }

  /** `feed.xml` is the layout `feedxml`, in any directory. */
  lemma LayoutKeyFeed(dir: string)
    ensures LayoutKey(dir + "/feed.xml") == "feedxml"
  {
    assert dir + "/feed.xml" == dir + "/" + "feed" + ".xml";
    LayoutKeyOf(dir, "feed", ".xml");
    FeedXml();
  }

  lemma FeedXml()
    ensures ".xml" != ".html" && "feed" + ".xml"[1..] == "feedxml"
  {
  }

  /** The directory listing as (key, text) pairs, in listing order. */
  function Keyed(files: seq<(string, string)>): (r: seq<(string, string)>)
    ensures |r| == |files|
    ensures forall i :: 0 <= i < |files| ==> r[i] == (LayoutKey(files[i].0), files[i].1)
  {
    seq(|files|, i requires 0 <= i < |files| => (LayoutKey(files[i].0), files[i].1))
  }

  /** Setting one attribute per entry, in order. */
  function Store(entries: seq<(string, string)>): LayoutMap {
    if |entries| == 0 then map[]
    else
      var last := entries[|entries| - 1];
      Store(entries[..|entries| - 1])[last.0 := last.1]
  }

  /** The attributes the files set, in the order the directory listing
      gives; a later file with the same key wins. */
  function Attributes(files: seq<(string, string)>): LayoutMap {
    Store(Keyed(files))
  }

  /** The position of the first entry whose key is refused, if any. */
  function FirstRefused(entries: seq<(string, string)>): (r: Option<nat>)
    ensures r.Some? ==> r.value < |entries| && Refused(entries[r.value].0)
    ensures r.Some? ==> forall j :: 0 <= j < r.value ==> !Refused(entries[j].0)
    ensures r.None? <==> forall j :: 0 <= j < |entries| ==> !Refused(entries[j].0)
  {
    if |entries| == 0 then None
    else if Refused(entries[0].0) then Some(0)
    else
      match FirstRefused(entries[1..])
      case None => None
      case Some(i) => Some(i + 1)
  }

  /** Some layout file names an attribute `setattr` refuses. */
  predicate HasRefused(files: seq<(string, string)>) {
    exists i :: 0 <= i < |files| && Refused(LayoutKey(files[i].0))
  }

  /** File `i` is the first whose key is refused. */
  predicate FirstRefusedAt(files: seq<(string, string)>, i: nat) {
    && i < |files| && Refused(LayoutKey(files[i].0))
    && forall j :: 0 <= j < i ==> !Refused(LayoutKey(files[j].0))
  }

  /** `Layouts.load`: every file is stored under its key, in listing order.
      The first file whose key `setattr` refuses raises, which stops the
      build; otherwise the layouts are the attributes the files set. */
  function Load(files: seq<(string, string)>): (r: Result<LayoutMap, LayoutError>)
    ensures r.Failure? <==> HasRefused(files)
    ensures r.Failure? ==> r.error.Unsettable? && Refused(r.error.name)
    ensures r.Success? ==> r.value == Attributes(files)
  {
    var e := Keyed(files);
    KeyedRefused(files);
    match FirstRefused(e)
    case Some(i) =>
      assert e[i].0 == LayoutKey(files[i].0);
      Failure(Unsettable(e[i].0))
    case None =>
      Success(Attributes(files))
  }

  /** The error names the first refused file. */
  lemma LoadStopsAtFirst(files: seq<(string, string)>)
    ensures Load(files).Failure? ==>
              exists i: nat :: FirstRefusedAt(files, i) && i < |files| && Load(files).error == Unsettable(LayoutKey(files[i].0))
  {
    var e := Keyed(files);
    KeyedRefused(files);
    var f := FirstRefused(e);
    if f.Some? {
      assert FirstRefusedAt(files, f.value);
    }
  }

  lemma KeyedRefused(files: seq<(string, string)>)
    ensures forall j :: 0 <= j < |files| ==> Keyed(files)[j].0 == LayoutKey(files[j].0)
  {
  }

  lemma {:induction false} StoreKeys(entries: seq<(string, string)>, k: string)
    ensures k in Store(entries) <==> exists i :: 0 <= i < |entries| && entries[i].0 == k
  {
    if |entries| > 0 {
      var init := entries[..|entries| - 1];
      StoreKeys(init, k);
      if k in Store(init) {
        var i :| 0 <= i < |init| && init[i].0 == k;
        assert entries[i] == init[i];
      }
      if exists i :: 0 <= i < |entries| && entries[i].0 == k {
        var i :| 0 <= i < |entries| && entries[i].0 == k;
        if i < |init| {
          assert init[i] == entries[i];
        }
      }
    }
  }

  lemma {:induction false} StoreLastWins(entries: seq<(string, string)>, i: nat)
    requires i < |entries|
    requires forall j :: i < j < |entries| ==> entries[j].0 != entries[i].0
    ensures entries[i].0 in Store(entries) && Store(entries)[entries[i].0] == entries[i].1
  {
    if i < |entries| - 1 {
      var init := entries[..|entries| - 1];
      assert forall j :: i < j < |init| ==> init[j] == entries[j];
      StoreLastWins(init, i);
    }
  }

  /** Exactly the keys of the listed files are stored. */
  lemma LoadKeys(files: seq<(string, string)>, k: string)
    ensures k in Attributes(files) <==> exists i :: 0 <= i < |files| && LayoutKey(files[i].0) == k
    ensures Load(files).Success? ==> (k in Load(files).value <==> exists i :: 0 <= i < |files| && LayoutKey(files[i].0) == k)
  {
    var e := Keyed(files);
    StoreKeys(e, k);
    if exists i :: 0 <= i < |files| && LayoutKey(files[i].0) == k {
      var i :| 0 <= i < |files| && LayoutKey(files[i].0) == k;
      assert e[i].0 == k;
    }
  }

  /** The text stored under a key is that of the last file with that key. */
  lemma LoadLastWins(files: seq<(string, string)>, i: nat)
    requires i < |files|
    requires forall j :: i < j < |files| ==> LayoutKey(files[j].0) != LayoutKey(files[i].0)
    ensures LayoutKey(files[i].0) in Attributes(files) && Attributes(files)[LayoutKey(files[i].0)] == files[i].1
    ensures Load(files).Success? ==> (LayoutKey(files[i].0) in Load(files).value
                                      && Load(files).value[LayoutKey(files[i].0)] == files[i].1)
  {
    var e := Keyed(files);
    StoreLastWins(e, i);
  }

  // ---------------------------------------------------------------------------
  // build
  // ---------------------------------------------------------------------------

  /** One menu link. */
  function MenuEntry(category: string): string {
    "<a href=" + category + ">" + Capitalize(category) + "</a>"
  }

  function MenuEntries(categories: seq<string>): (r: seq<string>)
    ensures |r| == |categories|
    ensures forall i :: 0 <= i < |r| ==> r[i] == MenuEntry(categories[i])
  {
    seq(|categories|, i requires 0 <= i < |categories| => MenuEntry(categories[i]))
  }

  /** The menu: one link per category directory, one per line. */
  function Menu(categories: seq<string>): string {
    Join(MenuEntries(categories), '\n')
  }

  /** The menu lines are the links again, one per category and in order. */
  lemma MenuLines(categories: seq<string>)
    requires |categories| >= 1
    requires forall i :: 0 <= i < |categories| ==> '\n' !in categories[i]
    ensures Split(Menu(categories), '\n') == MenuEntries(categories)
  {
    var es := MenuEntries(categories);
    forall i | 0 <= i < |es|
      ensures '\n' !in es[i]
    {
      MenuEntryAvoids(categories[i], '\n');
    }
    SplitJoin(es, '\n');
  }

  /** A link holds a brace or a line break only if its category does. */
  lemma MenuEntryAvoids(category: string, c: char)
    requires c == '{' || c == '\n'
    requires c !in category
    ensures c !in MenuEntry(category)
  {
    CapitalizeAvoids(category, c);
    MenuTagsAvoid(c);
  }

  lemma MenuTagsAvoid(c: char)
    requires c == '{' || c == '\n'
    ensures c !in "<a href=" && c !in ">" && c !in "</a>"
  {
  }

  /** `Layouts.build`: `page` gets the menu, then `post` and `list` become
      the new page shell with their own text as its content. Every other
      layout is left alone. */
  function Build(lay: LayoutMap, categories: seq<string>): (r: Result<LayoutMap, LayoutError>)
    ensures r.Success? <==> "build" !in lay && "page" in lay && "post" in lay && "list" in lay
    ensures r.Success? ==> r.value.Keys == lay.Keys
    ensures r.Success? ==> forall k :: k in lay && k !in {"page", "post", "list"} ==> r.value[k] == lay[k]
  {
    if "build" in lay then Failure(BuildShadowed)
    else if "page" !in lay then Failure(MissingLayout("page"))
    else if "post" !in lay then Failure(MissingLayout("post"))
    else if "list" !in lay then Failure(MissingLayout("list"))
    else
      var page := Render(lay["page"], map["menu" := Menu(categories)]);
      Success(lay["page" := page]
                 ["post" := Render(page, map["content" := lay["post"]])]
                 ["list" := Render(page, map["content" := lay["list"]])])
  }

  /** The three render passes of a successful build, by name. */
  lemma BuildOutcome(lay: LayoutMap, categories: seq<string>)
    ensures Build(lay, categories).Success? ==>
              var b := Build(lay, categories).value;
              && b["page"] == Render(lay["page"], map["menu" := Menu(categories)])
              && b["post"] == Render(b["page"], map["content" := lay["post"]])
              && b["list"] == Render(b["page"], map["content" := lay["list"]])
  {
  }

  /** The segments with every `key` placeholder turned into the plain text
      `value`. */
  function SetSlot(segs: seq<Segment>, key: string, value: string): (r: seq<Segment>)
    ensures |r| == |segs|
  {
    if |segs| == 0 then []
    else
      var s := segs[0];
      [if s.Slot? && s.key == key then Text(value) else s] + SetSlot(segs[1..], key, value)
  }

  /** Filling in one key is writing its placeholders out as the value. */
  lemma {:induction false} FillOne(segs: seq<Segment>, key: string, value: string)
    ensures Fill(segs, map[key := value]) == Written(SetSlot(segs, key, value))
  {
    if |segs| > 0 {
      var r := SetSlot(segs, key, value);
      assert r[1..] == SetSlot(segs[1..], key, value);
      FillOne(segs[1..], key, value);
    }
  }

  lemma {:induction false} SetSlotWellFormed(segs: seq<Segment>, key: string, value: string)
    requires AllWellFormed(segs) && '{' !in value
    ensures AllWellFormed(SetSlot(segs, key, value))
  {
    if |segs| > 0 {
      var r := SetSlot(segs, key, value);
      assert r[1..] == SetSlot(segs[1..], key, value);
      assert AllWellFormed(segs[1..]) by {
        forall i | 0 <= i < |segs| - 1
          ensures WellFormed(segs[1..][i])
        {
          assert segs[1..][i] == segs[i + 1];
        }
      }
      SetSlotWellFormed(segs[1..], key, value);
      NoBraceInert(value);
      assert WellFormed(segs[0]);
      forall i | 0 <= i < |r|
        ensures WellFormed(r[i])
      {
        if i > 0 {
          assert r[i] == r[1..][i - 1];
        }
      }
    }
  }

  /** `Layouts.build` on a page shell written as text and placeholders: the
      built `page` is the shell with every `menu` placeholder replaced by the
      menu, and `post` and `list` are that page with every `content`
      placeholder replaced by their own text. The other placeholders are left
      for the page render, and the text put in is never scanned. */
  lemma BuildComposes(lay: LayoutMap, categories: seq<string>, segs: seq<Segment>)
    requires "build" !in lay && "page" in lay && "post" in lay && "list" in lay
    requires AllWellFormed(segs) && lay["page"] == Written(segs)
    requires forall i :: 0 <= i < |categories| ==> '{' !in categories[i]
    ensures Build(lay, categories).Success?
    ensures var shell := SetSlot(segs, "menu", Menu(categories));
            var b := Build(lay, categories).value;
            && b["page"] == Written(shell)
            && b["post"] == Fill(shell, map["content" := lay["post"]])
            && b["list"] == Fill(shell, map["content" := lay["list"]])
  {
    var menu := Menu(categories);
    var shell := SetSlot(segs, "menu", menu);
    BuildOutcome(lay, categories);
    RenderWritten(segs, map["menu" := menu]);
    FillOne(segs, "menu", menu);
    MenuAvoidsBrace(categories);
    SetSlotWellFormed(segs, "menu", menu);
    RenderWritten(shell, map["content" := lay["post"]]);
    RenderWritten(shell, map["content" := lay["list"]]);
  }

  /** No placeholder of `segs` is `menu` or `content`. */
  predicate OtherSlots(segs: seq<Segment>) {
    forall i :: 0 <= i < |segs| ==> segs[i].Slot? ==> segs[i].key != "menu" && segs[i].key != "content"
  }

  /** With a shell of the form `pre {{ menu }} mid {{ content }} post`, where
      `pre`, `mid` and `post` are text and other placeholders (such as
      `{{ title }}`), the built `post` and `list` layouts are the shell with
      the menu and their own text in place and every other placeholder
      untouched. */
  lemma BuildEmbedsPost(lay: LayoutMap, categories: seq<string>, pre: seq<Segment>, mid: seq<Segment>, post: seq<Segment>,
                        w1: string, w2: string, w3: string, w4: string)
    requires "build" !in lay && "page" in lay && "post" in lay && "list" in lay
    requires AllWellFormed(pre) && AllWellFormed(mid) && AllWellFormed(post)
    requires OtherSlots(pre) && OtherSlots(mid) && OtherSlots(post)
    requires AllSpace(w1) && AllSpace(w2) && AllSpace(w3) && AllSpace(w4)
    requires forall i :: 0 <= i < |categories| ==> '{' !in categories[i]
    requires lay["page"] == Written(pre) + TokenText(w1, "menu", w2) + Written(mid) + TokenText(w3, "content", w4) + Written(post)
    ensures Build(lay, categories).Success?
    ensures Build(lay, categories).value["page"]
         == Written(pre) + Menu(categories) + Written(mid) + TokenText(w3, "content", w4) + Written(post)
    ensures Build(lay, categories).value["post"] == Written(pre) + Menu(categories) + Written(mid) + lay["post"] + Written(post)
    ensures Build(lay, categories).value["list"] == Written(pre) + Menu(categories) + Written(mid) + lay["list"] + Written(post)
  {
    var menu := Menu(categories);
    var ms := Slot(w1, "menu", w2);
    var cs := Slot(w3, "content", w4);
    var segs := pre + [ms] + mid + [cs] + post;
    ShellKeys();
    WrittenFive(pre, ms, mid, cs, post);
    FiveWellFormed(pre, ms, mid, cs, post);
    BuildComposes(lay, categories, segs);
    var shell := pre + [Text(menu)] + mid + [cs] + post;
    SetSlotFive(pre, ms, mid, cs, post, menu);
    WrittenFive(pre, Text(menu), mid, cs, post);
    FillFive(pre, Text(menu), mid, cs, post, map["content" := lay["post"]]);
    FillFive(pre, Text(menu), mid, cs, post, map["content" := lay["list"]]);
  }

  /** An example: a shell that also shows the page title keeps its
      `{{ title }}` placeholder for the page render, and the post text
      follows the menu. */
  lemma BuildExample(lay: LayoutMap)
    requires "build" !in lay && "page" in lay && "post" in lay && "list" in lay
    requires lay["page"] == "<b>{{ title }}</b>{{ menu }}{{ content }}" && lay["post"] == "P"
    ensures Build(lay, ["a"]).value["post"] == "<b>{{ title }}</b><a href=a>A</a>P"
  {
    var pre := [Text("<b>"), Slot(" ", "title", " "), Text("</b>")];
    ExampleShell(pre);
    ExampleMenu();
    ExampleTexts();
    BuildEmbedsPost(lay, ["a"], pre, [], [], " ", " ", " ", " ");
  }

  lemma ExampleShell(pre: seq<Segment>)
    requires pre == [Text("<b>"), Slot(" ", "title", " "), Text("</b>")]
    ensures Written(pre) == "<b>{{ title }}</b>" && Written([]) == ""
    ensures AllWellFormed(pre) && AllWellFormed([]) && OtherSlots(pre) && OtherSlots([])
  {
    ExampleWritten(pre);
    NoBraceInert("<b>");
    NoBraceInert("</b>");
    assert ValidKey("title") && AllSpace(" ");
    assert WellFormed(pre[0]) && WellFormed(pre[1]) && WellFormed(pre[2]);
  }

  lemma ExampleWritten(pre: seq<Segment>)
    requires pre == [Text("<b>"), Slot(" ", "title", " "), Text("</b>")]
    ensures Written(pre) == "<b>{{ title }}</b>"
  {
    var tail := [Text("</b>")];
    var title := TokenText(" ", "title", " ");
    assert Written(tail) == "</b>" by {
      assert tail[1..] == [];
    }
    assert pre[1..] == [Slot(" ", "title", " ")] + tail;
    assert Written(pre[1..]) == title + "</b>" by {
      assert pre[1..][1..] == tail;
    }
    assert Written(pre) == "<b>" + (title + "</b>");
  }

  lemma ExampleMenu()
    ensures Menu(["a"]) == "<a href=a>A</a>"
  {
    assert Capitalize("a") == "A";
    assert MenuEntry("a") == "<a href=a>A</a>";
    var es := MenuEntries(["a"]);
    assert |es| == 1 && es[0] == MenuEntry("a");
  }

  lemma ExampleTexts()
    ensures AllSpace(" ")
    ensures "<b>{{ title }}</b>" + TokenText(" ", "menu", " ") + "" + TokenText(" ", "content", " ") + ""
         == "<b>{{ title }}</b>{{ menu }}{{ content }}"
    ensures "<b>{{ title }}</b>" + "<a href=a>A</a>" + "" + "P" + "" == "<b>{{ title }}</b><a href=a>A</a>P"
  {
  }

  /** An example: single braces in the shell's own text, as in inline
      CSS, are copied through, and with no categories the menu is empty. */
  lemma CssExample(lay: LayoutMap)
    requires "build" !in lay && "page" in lay && "post" in lay && "list" in lay
    requires lay["page"] == "p{x}{{ menu }}{{ content }}" && lay["post"] == "P"
    ensures Build(lay, []).value["post"] == "p{x}P"
  {
    var pre := [Text("p{x}")];
    CssShell(pre);
    CssTexts();
    assert Menu([]) == "";
    BuildEmbedsPost(lay, [], pre, [], [], " ", " ", " ", " ");
  }

  lemma CssShell(pre: seq<Segment>)
    requires pre == [Text("p{x}")]
    ensures Written(pre) == "p{x}" && Written([]) == ""
    ensures AllWellFormed(pre) && AllWellFormed([]) && OtherSlots(pre) && OtherSlots([])
  {
    assert pre[1..] == [];
    CssInert();
    assert WellFormed(pre[0]);
  }

  lemma CssInert()
    ensures Inert("p{x}")
  {
    var t := "p{x}";
    NoBraceInert("x}");
    assert t[1..][1..] == "x}";
    assert t[1..][0] == '{' && t[1..][1] == 'x';
  }

  lemma CssTexts()
    ensures AllSpace(" ")
    ensures "p{x}" + TokenText(" ", "menu", " ") + "" + TokenText(" ", "content", " ") + ""
         == "p{x}{{ menu }}{{ content }}"
    ensures "p{x}" + "" + "" + "P" + "" == "p{x}P"
  {
  }

  /** An example: a layout file `__dict__.html` makes loading fail. */
  lemma LoadExampleRefused(text: string)
    ensures Load([("layout/__dict__.html", text)]) == Failure(Unsettable("__dict__"))
  {
    assert "layout/__dict__.html" == "layout" + "/" + "__dict__" + ".html";
    LayoutKeyOf("layout", "__dict__", ".html");
    assert HasRefused([("layout/__dict__.html", text)]) by {
      assert Refused(LayoutKey([("layout/__dict__.html", text)][0].0));
    }
  }

  /** The placeholders of the page shell are well-formed keys. */
  lemma ShellKeys()
    ensures ValidKey("menu") && ValidKey("content")
  {
  }

  lemma WrittenFive(a: seq<Segment>, s: Segment, b: seq<Segment>, t: Segment, c: seq<Segment>)
    ensures Written(a + [s] + b + [t] + c) == Written(a) + SegmentText(s) + Written(b) + SegmentText(t) + Written(c)
  {
    WrittenAppend(a + [s] + b + [t], c);
    WrittenAppend(a + [s] + b, [t]);
    WrittenAppend(a + [s], b);
    WrittenAppend(a, [s]);
    assert Written([s]) == SegmentText(s) by {
      assert [s][1..] == [];
    }
    assert Written([t]) == SegmentText(t) by {
      assert [t][1..] == [];
    }
  }

  lemma FiveWellFormed(a: seq<Segment>, s: Segment, b: seq<Segment>, t: Segment, c: seq<Segment>)
    requires AllWellFormed(a) && WellFormed(s) && AllWellFormed(b) && WellFormed(t) && AllWellFormed(c)
    ensures AllWellFormed(a + [s] + b + [t] + c)
  {
    var all := a + [s] + b + [t] + c;
    forall i | 0 <= i < |all|
      ensures WellFormed(all[i])
    {
      if i < |a| {
        assert all[i] == a[i];
      } else if i == |a| {
        assert all[i] == s;
      } else if i < |a| + 1 + |b| {
        assert all[i] == b[i - |a| - 1];
      } else if i == |a| + 1 + |b| {
        assert all[i] == t;
      } else {
        assert all[i] == c[i - |a| - 2 - |b|];
      }
    }
  }

  /** Turning the `menu` placeholder of the shell into text changes nothing
      else, because the other parts hold no `menu` placeholder. */
  lemma SetSlotFive(a: seq<Segment>, s: Segment, b: seq<Segment>, t: Segment, c: seq<Segment>, menu: string)
    requires OtherSlots(a) && OtherSlots(b) && OtherSlots(c)
    requires s.Slot? && s.key == "menu" && t.Slot? && t.key == "content"
    ensures SetSlot(a + [s] + b + [t] + c, "menu", menu) == a + [Text(menu)] + b + [t] + c
  {
    SetSlotAppend(a + [s] + b + [t], c, "menu", menu);
    SetSlotAppend(a + [s] + b, [t], "menu", menu);
    SetSlotAppend(a + [s], b, "menu", menu);
    SetSlotAppend(a, [s], "menu", menu);
    SetSlotNone(a, "menu", menu);
    SetSlotNone(b, "menu", menu);
    SetSlotNone(c, "menu", menu);
    assert SetSlot([s], "menu", menu) == [Text(menu)] by {
      assert [s][1..] == [];
    }
    assert SetSlot([t], "menu", menu) == [t] by {
      assert [t][1..] == [];
    }
  }

  lemma {:induction false} SetSlotAppend(a: seq<Segment>, b: seq<Segment>, key: string, value: string)
    ensures SetSlot(a + b, key, value) == SetSlot(a, key, value) + SetSlot(b, key, value)
  {
    if |a| > 0 {
      assert (a + b)[1..] == a[1..] + b;
      SetSlotAppend(a[1..], b, key, value);
    } else {
      assert a + b == b;
    }
  }

  /** Segments with no `menu` placeholder are left alone. */
  lemma {:induction false} SetSlotNone(segs: seq<Segment>, key: string, value: string)
    requires OtherSlots(segs) && key == "menu"
    ensures SetSlot(segs, key, value) == segs
  {
    if |segs| > 0 {
      assert OtherSlots(segs[1..]) by {
        forall i | 0 <= i < |segs| - 1
          ensures segs[1..][i].Slot? ==> segs[1..][i].key != "menu" && segs[1..][i].key != "content"
        {
          assert segs[1..][i] == segs[i + 1];
        }
      }
      SetSlotNone(segs[1..], key, value);
      assert segs == [segs[0]] + segs[1..];
    }
  }

  /** Filling in `content` changes only the `content` placeholder. */
  lemma FillFive(a: seq<Segment>, s: Segment, b: seq<Segment>, t: Segment, c: seq<Segment>, ctx: map<string, string>)
    requires OtherSlots(a) && OtherSlots(b) && OtherSlots(c)
    requires ctx.Keys == {"content"} && s.Text? && t.Slot? && t.key == "content"
    ensures Fill(a + [s] + b + [t] + c, ctx) == Written(a) + s.text + Written(b) + ctx["content"] + Written(c)
  {
    var x1 := a + [s];
    var x2 := x1 + b;
    var x3 := x2 + [t];
    FillOneSegment(s, t, ctx);
    FillUntouched(a, ctx);
    FillUntouched(b, ctx);
    FillUntouched(c, ctx);
    FillAppend(a, [s], ctx);
    assert Fill(x1, ctx) == Written(a) + s.text;
    FillAppend(x1, b, ctx);
    assert Fill(x2, ctx) == Written(a) + s.text + Written(b);
    FillAppend(x2, [t], ctx);
    assert Fill(x3, ctx) == Written(a) + s.text + Written(b) + ctx["content"];
    FillAppend(x3, c, ctx);
  }

  lemma FillOneSegment(s: Segment, t: Segment, ctx: map<string, string>)
    requires s.Text? && t.Slot? && t.key in ctx
    ensures Fill([s], ctx) == s.text && Fill([t], ctx) == ctx[t.key]
  {
    assert [s][1..] == [] && [t][1..] == [];
  }

  /** A menu built from names without an opening brace has none either. */
  lemma MenuAvoidsBrace(categories: seq<string>)
    requires forall i :: 0 <= i < |categories| ==> '{' !in categories[i]
    ensures '{' !in Menu(categories)
  {
    var es := MenuEntries(categories);
    forall i | 0 <= i < |es|
      ensures '{' !in es[i]
    {
      MenuEntryAvoids(categories[i], '{');
    }
    JoinAvoids(es, '\n', '{');
  }
}
