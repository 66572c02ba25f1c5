# makesite, modelled in Dafny

A model of the pure core of `makesite.py`, a small static-site generator.
It reads every file under `content/`, takes metadata from the file name
and the document's front matter, renders each page into a layout, and
writes one listing page and one RSS feed per category, plus a home listing
of the ten posts with the greatest `date` string (the newest, for
`YYYY-MM-DD` dates). Pandoc, the filesystem, the environment and the
clock are left outside the model and enter as parameters:

- a content file is a `Site.Source`, which holds its path, its modification date, its front matter as a string map, and the HTML of its body;
- the layout directory is a sequence of (path, text) pairs;
- the menu's category names are a sequence;
- `MAKESITE_URL` is an `Option<string>`;
- the current year is a `nat`.

The result of a build is the sequence of files written, or the error that
stops the build.

Modules, one per file:

- `Wrappers` (wrappers.dfy): `Option` and `Result`.
- `Text` (text.dfy):
  - Python's whitespace and digit classes;
  - `str.capitalize`, `str.split`, `str.join` and `str.lstrip`;
  - `os.path.basename`, `os.path.dirname` and `os.path.splitext`;
  - the code-point ordering of strings that `sorted` uses.
- `Template` (template.dfy): `render`. It is modelled as a scan of the template into literal characters and `{{ key }}` tokens, followed by an emission that replaces each known key.
- `Calendar` (calendar.dfy):
  - `strptime(date, "%Y-%m-%d")`, following CPython's regular expressions for the three fields;
  - calendar validity;
  - the day of the week;
  - `strftime` for `%Y-%m-%d` and for the date format of section 3.3 of RFC 5322 (successor of RFC 2822).
- `PageMeta` (pagemeta.dfy): `Page.getmeta`. This covers the file-name pattern, `relpath`, the category, front-matter overrides, `rfc_2822_date` and `summary`.
- `Layouts` (layouts.dfy): `Layouts.load` (naming the layout files and setting them as attributes) and `Layouts.build` (the menu and the three render passes).
- `DateSort` (datesort.dfy): `sorted(items, key=date, reverse=True)` as a stable insertion sort, and the `[:10]` truncation.
- `Site` (site.dfy): `main`, `Page.write`, `Index.write` and `fwrite`. This covers:
  - the global context;
  - the rendering contexts and their precedence;
  - routing of root pages and posts;
  - grouping posts by category in order of first appearance;
  - the category and home indexes;
  - the paths written.

Notes on what `makesite.py` does, which the model follows:

- The category is the immediate parent directory of the page (`relpath.split("/")[-2]`). For `content/a/b/post.md` it is `b`.
- Posts are sorted by their `date` string. Front-matter dates in other forms that `strptime("%Y-%m-%d")` accepts, such as `2024-3-1`, are kept as written and compared as strings, so `2024-3-1` is listed ahead of `2024-10-01`.
- A page is a root page when `os.path.dirname(src) == "content"`. Only then is the `page` layout used and the page left out of the indexes.
- Every regular file under `content/` goes through `Page(src)`. No file is copied as it is.
- `dict(gcontext, content=html, **meta)` raises `TypeError` when the metadata has a `content` key. `render(layout, **context)` raises `TypeError` when the context has a `template` key, and so does the rendering of an index item with a `template` key. These calls are outside the `try`, so each such error stops the build. A placeholder whose key is missing is never an error.

## Model

| member | source | states |
|---|---|---|
| Template.ScanLossless | makesite.py:182-185 | Concatenating the raw text of the scanned pieces gives back the template: no character is lost or reordered. |
| Template.ScanIsLeftmost | makesite.py:182-185 | The scan is a left-to-right, non-overlapping search: each token starts at the leftmost place the pattern matches in what remains, and every literal character is one where no match starts. |
| Template.LeftmostScanUnique | makesite.py:182-185 | Any decomposition with that leftmost property is the scan itself. The single-pass tokenisation is therefore unique. |
| Template.MatchAtComplete | makesite.py:183 | Two braces, a whitespace run, a maximal run of non-`}` non-space characters, a whitespace run and two closing braces are matched, with that run as the key. |
| Template.MatchAtSound | makesite.py:183 | Every match has exactly that shape. |
| Template.MatchTokenText | makesite.py:183 | A token built from whitespace, a valid key and whitespace is matched with that key and its full length. |
| Template.RenderWritten | makesite.py:182-185 | A template written as plain text and well-formed placeholders, where the text holds no `{{` and does not end in `{` (single braces, as in inline CSS `p{margin:0}`, are allowed), renders as if filled in by hand. Each placeholder with a known key becomes its value, every other one stays as written, the text between them is copied, and the values put in are never scanned again. |
| Template.RenderTokenFirst | makesite.py:184 | A leading token becomes the context's value for its key, or stays byte-identical when the key is absent, and the rest of the template is rendered on its own. Substituted text is never rescanned. |
| Template.RenderUnresolved | makesite.py:184 | A template none of whose keys are in the context renders to itself. |
| Template.RenderEmptyContext | makesite.py:180-186 | Rendering with an empty context is the identity. |
| Template.RenderNoBrace | makesite.py:180-186 | A template without `{` renders to itself. |
| Template.RenderLiteralPrefix | makesite.py:182-185 | A brace-free prefix passes through unchanged, and rendering continues after it. |
| Template.RenderInertPrefix | makesite.py:182-185 | A prefix with no `{{` that does not end in `{` passes through unchanged, whatever follows it, and rendering continues after it. |
| Template.InertIff | makesite.py:182-185 | Text in which no placeholder can start, whatever follows it, is exactly text where every `{` is followed by a character other than `{`. |
| Template.RenderOneToken | makesite.py:180-186 | Text, one token, text: only the token changes. |
| Template.RenderSpacingIrrelevant | makesite.py:183-184 | `{{name}}` and `{{  name }}` look up the same key and render alike. |
| Template.MatchExampleInnerSpace | makesite.py:183 | `{{a b}}` is not a token. |
| Template.RenderExampleMissing | makesite.py:184 | An unknown placeholder is left as written. |
| Template.SpaceRunMaximal | makesite.py:183 | The `\s*` run is all whitespace and is maximal. |
| Template.KeyRunMaximal | makesite.py:183 | The `[^}\s]+` run holds only key characters and is maximal. |
| Text.Capitalize | makesite.py:59 | The first character is upper-cased, every other character is lower-cased, and the length is kept. |
| Text.NatToStringRoundTrip | makesite.py:29 | The decimal text of the current year reads back as that year. |
| Text.JoinSplit | makesite.py:91 | `"/".join(s.split("/")) == s` |
| Text.SplitJoin | makesite.py:132 | Splitting a join of separator-free parts gives back the parts. |
| Text.SplitCount | makesite.py:90-93 | A split has at least two parts exactly when the separator occurs, which is what makes `[-2]` raise `IndexError`. |
| Text.LastIndexOfIsLast | makesite.py:81 | The last occurrence has no later occurrence, and it is absent exactly when the character is. |
| Text.Basename | makesite.py:81 | The base name is the suffix of the path after its last `/`: it has no `/`, and it is the whole path or is preceded by a `/`. |
| Text.BasenameUnder | makesite.py:81 | The base name of `dir/b` is `b`. |
| Text.DirnameTop | makesite.py:46 | The directory of `dir/name` is `dir`. |
| Text.DirnameDeeper | makesite.py:46 | A path with one more component has a longer directory. |
| Text.SplitExt | makesite.py:82 | `root + ext` is the path, and `ext` is empty or a single `.`-led suffix without another `.` or a `/`. |
| Text.SplitName | makesite.py:82 | Splitting a final component gives back the component. The extension is empty or a single `.`-led suffix. It is empty exactly when every dot in the name has only dots before it, so leading dots are not an extension. |
| Text.SplitExtOfName | makesite.py:82 | Splitting a path splits its final component. |
| Text.SplitExtUnderDir | makesite.py:89 | The directory part is untouched by the extension split. |
| Text.SplitExtPlain | makesite.py:82 | `name.ext` splits into `name` and `.ext`. |
| Text.LessTotal | makesite.py:57 | String comparison is total. |
| Text.LessTransitive | makesite.py:57 | String comparison is transitive. |
| Text.LessIrreflexive | makesite.py:57 | String comparison is irreflexive. |
| Text.LessAsymmetric | makesite.py:57 | String comparison is asymmetric. |
| Text.LessAppend | makesite.py:57 | Equal-length prefixes compare first. |
| Calendar.DaysInMonth | makesite.py:99 | Months have 28 to 31 days, and 29 exactly for February of a leap year. |
| Calendar.DaysBeforeYearCorrect | makesite.py:99-101 | The closed-form day count before a year equals the sum of the years' lengths. |
| Calendar.DaysBeforeMonthCorrect | makesite.py:99-101 | The table of days before a month equals the sum of the months' lengths, and all twelve months sum to the year. |
| Calendar.OrdinalNextDay | makesite.py:99-101 | The ordinal of the next day is one more. |
| Calendar.WeekdayNextDay | makesite.py:100 | The weekday advances by one, modulo seven, from one day to the next. |
| Calendar.WeekdayOfFirstDay | makesite.py:100 | 1 January of year 1 is a Monday. |
| Calendar.ParseIsoDate | makesite.py:99 | `strptime` only yields valid calendar dates. |
| Calendar.ParseIsoShaped | makesite.py:99 | A `DDDD-DD-DD` string parses exactly when its fields form a valid date, and then to those fields. |
| Calendar.ParseIsoDateRoundTrip | makesite.py:84-99 | Formatting a valid date as `%Y-%m-%d` and parsing the result gives the date back. |
| Calendar.IsoDateOrder | makesite.py:57-84 | Comparing two formatted dates as strings is comparing the dates chronologically. So for `date` values written `YYYY-MM-DD`, sorting by the `date` string sorts by date; other forms that `strptime` accepts, such as `2024-3-1`, are compared as strings. |
| Calendar.Rfc2822Fields | makesite.py:99-101 | The RFC date is `Www, DD Mon YYYY 00:00:00 +0000` with the date's weekday, day, month and year in their fields. |
| Calendar.Rfc2822Injective | makesite.py:99-101 | Distinct dates give distinct RFC dates. |
| Calendar.Rfc2822Example | makesite.py:99-101 | `2024-03-01` becomes `Fri, 01 Mar 2024 00:00:00 +0000`. |
| Calendar.ParseIsoDateExample | makesite.py:99 | `2024-03-01` parses to 1 March 2024. |
| Calendar.UnpaddedDateOrder | makesite.py:96-99 | `strptime` accepts the front-matter date `2024-3-1` (1 March 2024), which is before `2024-10-01`, yet as a string `2024-3-1` is the greater of the two, so it sorts ahead. |
| Calendar.WeekdayExample | makesite.py:100 | 1 March 2024 is a Friday. |
| PageMeta.SplitDateTitle | makesite.py:85-87 | A match has an ISO-shaped date prefix or none, and the title is the rest of the stem (the pattern's `.`/`$` line rules). There is no match exactly when the whole stem fails those line rules. |
| PageMeta.SplitDateTitleDated | makesite.py:85-87 | `DDDD-DD-DD-rest` with a non-empty `rest` gives that date and title. |
| PageMeta.SplitDateTitleUndated | makesite.py:85-87 | Any other one-line stem has no date and keeps the whole stem as the title. |
| PageMeta.SplitDateTitleExamples | makesite.py:85-87 | `2024-03-01-` keeps its full text as the title. |
| PageMeta.LineBodyComplete | makesite.py:85 | `(.+)$` accepts a non-empty line, with or without one final newline. |
| PageMeta.RelPath | makesite.py:88 | `content/` followed by the relative path is the source path. |
| PageMeta.HtmlPathInDir | makesite.py:89 | Swapping the extension for `.html` only changes the final component. |
| PageMeta.HtmlPathSegments | makesite.py:89-91 | The `.html` path has the same directory components. |
| PageMeta.CategoryIsParent | makesite.py:88-93 | The category is the parent directory of the page inside the content directory, and `None` at the top level. |
| PageMeta.TopLevelIffNoCategory | makesite.py:88-93 | A page has category `None` exactly when it sits directly in `content`. |
| PageMeta.Assemble | makesite.py:99 | Assembly only fails on the date. |
| PageMeta.AssembleOutcome | makesite.py:96-102 | A page is kept exactly when its final date parses, and then has the path keys, the front-matter keys, `rfc_2822_date` and `summary`. |
| PageMeta.AssembleOverrides | makesite.py:96-97 | Front-matter values override every path-derived key, `date` and `title` included. |
| PageMeta.AssembleComputedKeys | makesite.py:99-102 | `rfc_2822_date` is computed from the final date, and `summary` defaults to `""` only when absent. |
| PageMeta.GetMeta | makesite.py:77-104 | A page fails with `NoTitle` exactly when its file name does not match the pattern. |
| PageMeta.Finish | makesite.py:85-104 | A failed name match, and only that, gives `NoTitle`. |
| PageMeta.GetMetaKeys | makesite.py:77-104 | A kept page has every path and computed key, and its `relpath` and `category` are the path-derived ones unless the front matter overrides them. |
| PageMeta.PathMetaDated | makesite.py:85-87 | A dated file name gives its own date and title. |
| PageMeta.PathMetaUndated | makesite.py:84-87 | An undated file name gives the modification date and the whole stem. |
| PageMeta.InvalidNameDateSkipped | makesite.py:99-101 | A name date like `2024-02-30` that is not a real date makes the page fail with `BadDate`. |
| PageMeta.UndatedPageKept | makesite.py:84-99 | An undated page without a front-matter date is always kept. |
| Layouts.LStrip | makesite.py:122 | `lstrip` removes exactly the leading run of the character. |
| Layouts.LayoutKeyShape | makesite.py:120-122 | The key is the stem for `.html`, otherwise the stem followed by the extension without its dot. |
| Layouts.LayoutKeyOf | makesite.py:120-122 | The same, for `name.ext`. |
| Layouts.LayoutKeyPage | makesite.py:120-122 | `page.html` is stored as `page`. |
| Layouts.LayoutKeyFeed | makesite.py:120-122 | `feed.xml` is stored as `feedxml`. |
| Layouts.Load | makesite.py:115-123 | Loading fails exactly when some file's key is `__class__`, `__dict__` or `__weakref__`, the attributes `setattr` refuses on the object; the error names such a key. Otherwise the layouts are the attributes the files set. |
| Layouts.LoadStopsAtFirst | makesite.py:119-123 | The key a failed load names is that of the first refused file in listing order. |
| Layouts.LoadExampleRefused | makesite.py:115-123 | A layout file `__dict__.html` makes loading fail. |
| Layouts.LoadKeys | makesite.py:118-123 | The keys set are exactly the keys of the files, and so are the keys of a successful load. |
| Layouts.LoadLastWins | makesite.py:123 | A later file with the same key overwrites an earlier one. |
| Layouts.MenuLines | makesite.py:131-132 | The menu's lines are exactly the links. |
| Layouts.MenuAvoidsBrace | makesite.py:131-133 | A menu made of brace-free names introduces no placeholder. |
| Layouts.Build | makesite.py:133-135 | Building succeeds exactly when `page`, `post` and `list` exist and no layout is named `build`. It keeps the keys and leaves every other layout alone. |
| Layouts.BuildComposes | makesite.py:131-135 | For any page shell written as text with no `{{` and no trailing `{` (single braces allowed) and placeholders, and menu names without `{`: the built `page` is the shell with every `{{ menu }}` replaced by the menu, and `post` and `list` are that page with every `{{ content }}` replaced by their own text. Every other placeholder is kept for the page render. |
| Layouts.BuildEmbedsPost | makesite.py:133-135 | For a shell `pre {{ menu }} mid {{ content }} post`, where `pre`, `mid` and `post` are placeholders other than `menu` and `content` (such as `{{ title }}`) and text with no `{{` and no trailing `{`, and menu names without `{`: the built `post` and `list` are the shell with the menu and their original text in place. |
| Layouts.BuildExample | makesite.py:133-135 | The shell `<b>{{ title }}</b>{{ menu }}{{ content }}` with the category `a` and the post `P` builds the `post` layout `<b>{{ title }}</b><a href=a>A</a>P`. |
| Layouts.CssExample | makesite.py:133-135 | The shell `p{x}{{ menu }}{{ content }}`, with a single brace in its own text, no categories and the post `P`, builds the `post` layout `p{x}P`. |
| DateSort.SortDescCorrect | makesite.py:57 | The sort is a permutation, is descending by key, and keeps items with equal keys in their original order. |
| DateSort.SortedUnique | makesite.py:57 | Any sequence with those properties is the sort's result. |
| DateSort.SortDescIdempotent | makesite.py:57 | Sorting a sorted sequence changes nothing. |
| DateSort.InsertPermutes | makesite.py:57 | Insertion adds exactly one item. |
| DateSort.InsertSorted | makesite.py:57 | Insertion keeps the order. |
| DateSort.InsertRuns | makesite.py:57 | Insertion puts the item before its equals. |
| DateSort.TakeSortedTop | makesite.py:64 | `[:n]` has length `min(n, len)`, is a prefix, and no item left out has a greater key than one kept. |
| Site.GlobalContext | makesite.py:27-29 | `site_url` comes from the environment or the default, and `current_year` is the year's decimal text. No other key is present, so nothing clashes with the index renderings' keyword arguments. |
| Site.PageContextPrecedence | makesite.py:109 | Page metadata overrides `content`, which overrides the global context. |
| Site.ItemContextPrecedence | makesite.py:148 | Item fields override the global context. |
| Site.ListContext | makesite.py:149-151 | The listing context is the global context with `content` and `rsspath`. |
| Site.Read | makesite.py:69-72 | A page's metadata is `getmeta` of its path, date and front matter, and the metadata of a kept page has `relpath`, `date` and `category`, the keys the page write and the indexes read. |
| Site.RouteOfSource | makesite.py:46-52 | A kept page is routed as a root page exactly when its path inside `content` has a single component, and as a post otherwise. Without a front-matter category, it is a root page exactly when its category is `None`. |
| Site.PostCategory | makesite.py:50-52 | A post's category is its directory, never `None`, unless the front matter sets one. |
| Site.PageWritesPaths | makesite.py:106-111 | Every kept page is written at `_site/` followed by its `relpath`, in order, and nothing else is written. |
| Site.PageWritesClash | makesite.py:109-110 | The pages are written exactly when no kept page has a `content` or `template` key. |
| Site.GroupLookup | makesite.py:37-52 | A category's list holds exactly the posts of that category, in the order they were read. |
| Site.AppendLookup | makesite.py:52 | Appending a post extends its own category's list and no other. |
| Site.GroupPermutes | makesite.py:37-63 | Grouping by category neither loses nor duplicates a post. |
| Site.Find | makesite.py:52 | The first group with the category, or none. |
| Site.IndexWriteOutcome | makesite.py:142-159 | An index is written exactly when the layouts it reads exist and no item has a `template` key. Its listing is at `path/index.html` and its feed at `path/rss.xml`. Both are rendered from the concatenated item renderings, with `rsspath` set to the feed's own path below `_site`. |
| Site.CategoryIndexesPaths | makesite.py:142-159 | Two files per category, in order of first appearance. |
| Site.GenerateOutputs | makesite.py:46-65 | A build writes the kept pages, then the category indexes, then `_site//index.html` and `_site//rss.xml`. |
| Site.SiteLayouts | makesite.py:32-34 | The build stops before writing any page or index when a layout file's key is `__class__`, `__dict__` or `__weakref__`, when no layout file gives `page`, `post` or `list`, or when one gives `build`. A `build` file stops it because it shadows the method. Otherwise the pages and indexes are written with the built layouts. |
| Site.PostsMembers | makesite.py:49-52 | The posts are exactly the kept pages outside the top of the content directory. |
| Site.IndexedIffPost | makesite.py:46-63 | A page's metadata is indexed exactly when it is a post. |
| Site.RootPageNotIndexed | makesite.py:46-48 | Root pages appear in no index. |
| Site.CategoryIndexOrder | makesite.py:56-57 | Each category index is a permutation of that category's posts, sorted by `date` string in descending order (newest first for `YYYY-MM-DD` dates), stable among equal dates, and the only such order. |
| Site.HomeIndex | makesite.py:63-64 | The home index has `min(10, n)` items, is a prefix of all posts sorted by `date` string in descending order (newest first for `YYYY-MM-DD` dates), and no post left out has a greater `date` string than one listed. |

## Left out

- Pandoc is not modelled: reading documents and writing HTML or front-matter values. The front matter enters as a string map and the body as an HTML string.
- A document pandoc cannot read (the `except` at makesite.py:43-45) is not modelled. Only metadata failures skip a page.
- Filesystem work enters as parameters and results: `rmtree` and `copytree` of `static`, `glob`, `os.stat`, `fread`, `makedirs` and the writes themselves. Each write is an `Output` value.
- Source paths are assumed to be glob-shaped: `content/` followed by non-empty components other than `.` and `..`. This is the `Site.GoodSource` precondition.
- The menu's category list (makesite.py:126-130) is a parameter. Its glob-dependent contents are not modelled, for example the empty name that the root `content/` directory yields.
- `os.environ` and `datetime.now().year` are parameters.
- `tqdm` progress output, logging, and `defaultlog.py` are not modelled.
- Writes made before an uncaught error are not modelled. A refused layout name, a missing layout, or a `content` or `template` key clash makes the whole build a `Failure`. The source stops with the files written so far still on disk.
- Unicode is out of scope:
  - `\d` is ASCII digits.
  - `\s` is the characters `str.isspace` accepts, listed explicitly.
  - `str.capitalize` maps ASCII letters only.
  - `%a` and `%b` use the C locale's English names.
- `%Y` output for years below 1000 depends on the platform. The model pads to four digits.
- The time of day is dropped. The modification date enters as a calendar date, in local time, as `fromtimestamp` gives it.
- Calendar.Rfc2822Example: the example is stated for one date, 1 March 2024, as a witness of the format. The general statement is Calendar.Rfc2822Fields.
- Layouts.BuildComposes: stated for menu names without `{`. A name like `{{ content }}` would put a new placeholder into the page shell, which the second render pass then fills.
- Layouts.BuildEmbedsPost: the same restriction on menu names.
- Site.RootPageNotIndexed: stated for a root page whose metadata no post shares. Front matter can give two pages equal metadata, and then the same value appears in an index.
- Site.PageWritesPaths: states the paths of the written files, not the rendered text. The text is the layout rendered with `Site.PageContextPrecedence`'s context, by definition.
