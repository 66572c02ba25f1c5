/**
 * Character classes and the small pieces of Python's `str` and `posixpath`
 * behaviour that the site generator leans on: `str.isspace`, ASCII digits,
 * `str(int)`, `str.capitalize`, `str.split`/`str.join`, `str` ordering, and
 * `os.path.basename`, `os.path.dirname`, `os.path.splitext` for '/'-separated
 * paths.
 */
module Text {

  // ---------------------------------------------------------------------------
  // Character classes
  // ---------------------------------------------------------------------------

  /** Python's `str.isspace`: the characters `\s` matches in a `str` pattern. */
  predicate IsSpace(c: char) {
    || ('\t' <= c <= '\r')
    || ('\U{1C}' <= c <= '\U{1F}')
    || c == ' '
    || c == '\U{85}'
    || c == '\U{A0}'
    || c == '\U{1680}'
    || ('\U{2000}' <= c <= '\U{200A}')
    || c == '\U{2028}'
    || c == '\U{2029}'
    || c == '\U{202F}'
    || c == '\U{205F}'
    || c == '\U{3000}'
  }

  predicate AllSpace(s: string) {
    forall i :: 0 <= i < |s| ==> IsSpace(s[i])
  }

  predicate IsDigit(c: char) {
    '0' <= c <= '9'
  }

  predicate AllDigits(s: string) {
    forall i :: 0 <= i < |s| ==> IsDigit(s[i])
  }

  function DigitValue(c: char): (v: nat)
    requires IsDigit(c)
    ensures v < 10
  {
    (c - '0') as nat
  }

  function DigitChar(v: nat): (c: char)
    requires v < 10
    ensures IsDigit(c) && DigitValue(c) == v
  {
    '0' + v as char
  }

  /** The number a string of decimal digits denotes (Python's `int(s)`). */
  function DigitsValue(s: string): nat
    requires AllDigits(s)
  {
    if |s| == 0 then 0 else DigitsValue(s[..|s| - 1]) * 10 + DigitValue(s[|s| - 1])
  }

  /** Python's `str(n)` for a non-negative integer. */
  function NatToString(n: nat): (r: string)
    ensures |r| > 0 && AllDigits(r)
    ensures n > 0 ==> r[0] != '0'
  {
    if n < 10 then [DigitChar(n)] else NatToString(n / 10) + [DigitChar(n % 10)]
  }

  /** Reading the decimal text of `n` back gives `n`. */
  lemma {:induction false} NatToStringRoundTrip(n: nat)
    ensures DigitsValue(NatToString(n)) == n
  {
    if n >= 10 {
      var s := NatToString(n / 10);
      NatToStringRoundTrip(n / 10);
      assert (s + [DigitChar(n % 10)])[..|s|] == s;
    }
  }

  // ---------------------------------------------------------------------------
  // str.capitalize (ASCII letters)
  // ---------------------------------------------------------------------------

  function Upper(c: char): char {
    if 'a' <= c <= 'z' then c - 'a' + 'A' else c
  }

  function Lower(c: char): char {
    if 'A' <= c <= 'Z' then c - 'A' + 'a' else c
  }

  /** Python's `str.capitalize`: first character upper case, the rest lower case. */
  function Capitalize(s: string): (r: string)
    ensures |r| == |s|
    ensures |s| > 0 ==> r[0] == Upper(s[0])
    ensures forall i :: 1 <= i < |s| ==> r[i] == Lower(s[i])
  {
    if |s| == 0 then "" else [Upper(s[0])] + seq(|s| - 1, i requires 0 <= i < |s| - 1 => Lower(s[i + 1]))
  }

  /** Capitalizing neither adds nor removes a character that is not a
      letter. */
  lemma CapitalizeAvoids(s: string, c: char)
    requires c !in s && !('a' <= c <= 'z') && !('A' <= c <= 'Z')
    ensures c !in Capitalize(s)
  {
    var r := Capitalize(s);
    forall j | 0 <= j < |r|
      ensures r[j] != c
    {
      assert s[j] in s;
      CaseAvoids(s[j], c);
      if j == 0 {
        assert r[j] == Upper(s[j]);
      } else {
        assert r[j] == Lower(s[j]);
      }
    }
  }

  lemma CaseAvoids(x: char, c: char)
    requires x != c && !('a' <= c <= 'z') && !('A' <= c <= 'Z')
    ensures Upper(x) != c && Lower(x) != c
  {
  }

  // ---------------------------------------------------------------------------
  // Searching
  // ---------------------------------------------------------------------------

  /** Python's `s.rfind(c)`: the last index of `c`, or -1. */
  function LastIndexOf(s: string, c: char): (r: int)
    ensures -1 <= r < |s|
    ensures r >= 0 ==> s[r] == c
  {
    if |s| == 0 then -1
    else if s[|s| - 1] == c then |s| - 1
    else LastIndexOf(s[..|s| - 1], c)
  }

  /** Nothing after `s.rfind(c)` is `c`, and -1 means that `c` does not
      occur. */
  lemma {:induction false} LastIndexOfIsLast(s: string, c: char)
    ensures forall i :: LastIndexOf(s, c) < i < |s| ==> s[i] != c
    ensures LastIndexOf(s, c) == -1 <==> c !in s
  {
    if |s| > 0 && s[|s| - 1] != c {
      var t := s[..|s| - 1];
      LastIndexOfIsLast(t, c);
      assert forall i :: 0 <= i < |t| ==> s[i] == t[i];
      assert c in s <==> c in t by {
        assert s == t + [s[|s| - 1]];
      }
    }
  }

  /** Python's `s.find(c)` when `c` occurs: the first index of `c`. */
  function IndexOf(s: string, c: char): (r: nat)
    requires c in s
    ensures r < |s| && s[r] == c
    ensures c !in s[..r]
  {
    if s[0] == c then 0 else 1 + IndexOf(s[1..], c)
  }

  lemma LastIndexOfAppend(a: string, b: string, c: char)
    ensures c in b ==> LastIndexOf(a + b, c) == |a| + LastIndexOf(b, c)
    ensures c !in b ==> LastIndexOf(a + b, c) == LastIndexOf(a, c)
  {
    LastIndexOfIsLast(a + b, c);
    LastIndexOfIsLast(a, c);
    LastIndexOfIsLast(b, c);
    if c in b {
      var k := LastIndexOf(b, c);
      assert (a + b)[|a| + k] == c;
    } else {
      var k := LastIndexOf(a, c);
      if k >= 0 {
        assert (a + b)[k] == c;
      }
      assert forall i :: |a| <= i < |a + b| ==> (a + b)[i] == b[i - |a|];
    }
  }

  // ---------------------------------------------------------------------------
  // str.split / str.join with a one-character separator
  // ---------------------------------------------------------------------------

  /** Python's `s.split(sep)`. */
  function Split(s: string, sep: char): (parts: seq<string>)
    ensures |parts| >= 1
    ensures forall i :: 0 <= i < |parts| ==> sep !in parts[i]
    decreases |s|
  {
    if sep !in s then [s]
    else
      var i := IndexOf(s, sep);
      [s[..i]] + Split(s[i + 1..], sep)
  }

  /** There is more than one part exactly when the separator occurs. */
  lemma SplitCount(s: string, sep: char)
    ensures |Split(s, sep)| >= 2 <==> sep in s
  {
    if sep in s {
      var i := IndexOf(s, sep);
      assert Split(s, sep) == [s[..i]] + Split(s[i + 1..], sep);
    }
  }

  /** Python's `sep.join(parts)`. */
  function Join(parts: seq<string>, sep: char): string {
    if |parts| == 0 then ""
    else if |parts| == 1 then parts[0]
    else parts[0] + [sep] + Join(parts[1..], sep)
  }

  /** Python's `"".join(parts)`. */
  function Concat(parts: seq<string>): string {
    if |parts| == 0 then "" else parts[0] + Concat(parts[1..])
  }

  lemma {:induction false} JoinSplit(s: string, sep: char)
    ensures Join(Split(s, sep), sep) == s
    decreases |s|
  {
    if sep in s {
      var i := IndexOf(s, sep);
      var rest := Split(s[i + 1..], sep);
      JoinSplit(s[i + 1..], sep);
      assert ([s[..i]] + rest)[1..] == rest;
      assert s == s[..i] + [sep] + s[i + 1..];
    }
  }

  lemma {:induction false} SplitJoin(parts: seq<string>, sep: char)
    requires |parts| >= 1
    requires forall i :: 0 <= i < |parts| ==> sep !in parts[i]
    ensures Split(Join(parts, sep), sep) == parts
  {
    if |parts| > 1 {
      var p0 := parts[0];
      var tail := Join(parts[1..], sep);
      var s := p0 + ([sep] + tail);
      assert Join(parts, sep) == s;
      IndexOfPrefix(p0, [sep] + tail, sep);
      assert s[..|p0|] == p0;
      assert s[|p0| + 1..] == tail;
      assert Split(s, sep) == [p0] + Split(tail, sep);
      SplitJoin(parts[1..], sep);
      assert parts == [p0] + parts[1..];
    }
  }

  lemma IndexOfPrefix(a: string, b: string, c: char)
    requires c !in a && |b| > 0 && b[0] == c
    ensures c in a + b && IndexOf(a + b, c) == |a|
  {
    assert (a + b)[|a|] == c;
    assert (a + b)[..|a|] == a;
  }

  /** Joining one more part adds the separator and the part at the end. */
  lemma {:induction false} JoinSnoc(parts: seq<string>, last: string, sep: char)
    requires |parts| >= 1
    ensures Join(parts + [last], sep) == Join(parts, sep) + [sep] + last
  {
    if |parts| > 1 {
      assert (parts + [last])[1..] == parts[1..] + [last];
      JoinSnoc(parts[1..], last, sep);
    } else {
      assert (parts + [last])[1..] == [last];
    }
  }

  lemma {:induction false} JoinLastChar(parts: seq<string>, sep: char)
    requires |parts| >= 1 && |parts[|parts| - 1]| > 0
    ensures |Join(parts, sep)| > 0
    ensures Join(parts, sep)[|Join(parts, sep)| - 1] == parts[|parts| - 1][|parts[|parts| - 1]| - 1]
  {
    if |parts| > 1 {
      JoinLastChar(parts[1..], sep);
    }
  }

  /** A character in neither the parts nor the separator is not in the
      joined string. */
  lemma {:induction false} JoinAvoids(parts: seq<string>, sep: char, c: char)
    requires c != sep && forall i :: 0 <= i < |parts| ==> c !in parts[i]
    ensures c !in Join(parts, sep)
  {
    if |parts| > 1 {
      JoinAvoids(parts[1..], sep, c);
      assert c !in parts[0];
    }
  }

  lemma {:induction false} ConcatAppend(a: seq<string>, b: seq<string>)
    ensures Concat(a + b) == Concat(a) + Concat(b)
  {
    if |a| > 0 {
      assert (a + b)[1..] == a[1..] + b;
      ConcatAppend(a[1..], b);
    } else {
      assert a + b == b;
    }
  }

  // ---------------------------------------------------------------------------
  // posixpath helpers
  // ---------------------------------------------------------------------------

  lemma AppendAssoc<T>(a: seq<T>, b: seq<T>, c: seq<T>)
    ensures (a + b) + c == a + (b + c)
  {
  }

  /** A non-empty sequence is its front followed by its last element. */
  lemma InitLast<T>(s: seq<T>)
    requires |s| > 0
    ensures s == s[..|s| - 1] + [s[|s| - 1]]
  {
  }

  /** `os.path.basename`: everything after the last '/'. */
  function Basename(p: string): (r: string)
    ensures '/' !in r
    ensures |r| <= |p| && r == p[|p| - |r|..]
    ensures |r| == |p| || p[|p| - |r| - 1] == '/'
  {
    LastIndexOfIsLast(p, '/');
    var r := p[LastIndexOf(p, '/') + 1..];
    assert forall j :: 0 <= j < |r| ==> r[j] == p[LastIndexOf(p, '/') + 1 + j];
    r
  }

  /** The final component of `dir/b` is `b` when `b` has no separator. */
  lemma BasenameUnder(dir: string, b: string)
    requires '/' !in b
    ensures Basename(dir + "/" + b) == b
  {
    var q := dir + "/";
    assert dir + "/" + b == q + b;
    LastIndexOfAppend(q, b, '/');
    assert q[|dir|] == '/';
  }

  /** The directory of `dir/name`, for a name without separators, is `dir`
      when `dir` is a plain name. */
  lemma DirnameTop(dir: string, name: string)
    requires '/' !in name && |dir| > 0 && '/' !in dir
    ensures Dirname(dir + "/" + name) == dir
  {
    var q := dir + "/";
    assert dir + "/" + name == q + name;
    LastIndexOfAppend(q, name, '/');
    assert q[|dir|] == '/';
    var p := q + name;
    assert p[..|dir| + 1] == q;
    assert q[0] != '/' by {
      assert q[0] == dir[0];
    }
    assert q[..|q| - 1] == dir;
    assert RStrip(q, '/') == dir;
  }

  /** The directory of `dir/rel`, when `rel` has a separator and does not
      start with one, is longer than `dir`. */
  lemma DirnameDeeper(dir: string, rel: string)
    requires '/' in rel && rel[0] != '/'
    ensures |Dirname(dir + "/" + rel)| > |dir| + 1
  {
    var q := dir + "/";
    var p := q + rel;
    assert dir + "/" + rel == p;
    LastIndexOfAppend(q, rel, '/');
    LastIndexOfIsLast(rel, '/');
    var k := LastIndexOf(p, '/');
    assert k >= |q|;
    var head := p[..k + 1];
    assert head[|q|] == rel[0] != '/';
    var r := RStrip(head, '/');
    assert |r| > |q|;
  }

  /** `s.rstrip(c)` */
  function RStrip(s: string, c: char): (r: string)
    ensures |r| <= |s| && r == s[..|r|]
    ensures |r| > 0 ==> r[|r| - 1] != c
    ensures forall i :: |r| <= i < |s| ==> s[i] == c
  {
    if |s| == 0 || s[|s| - 1] != c then s else RStrip(s[..|s| - 1], c)
  }

  /** `os.path.dirname`: the head up to the last '/', trailing slashes removed
      unless the head consists of slashes only. */
  function Dirname(p: string): string {
    var head := p[..LastIndexOf(p, '/') + 1];
    if |head| > 0 && exists i :: 0 <= i < |head| && head[i] != '/' then RStrip(head, '/') else head
  }

  predicate AllDots(s: string) {
    forall i :: 0 <= i < |s| ==> s[i] == '.'
  }

  /** `os.path.splitext` on a '/'-separated path: only the final component
      is split, as `SplitName` describes. */
  function SplitExt(p: string): (r: (string, string))
    ensures r.0 + r.1 == p
    ensures r.1 == "" || (r.1[0] == '.' && '.' !in r.1[1..] && '/' !in r.1)
  {
    var k := LastIndexOf(p, '/') + 1;
    BasenameAt(p);
    var n := SplitName(p[k..]);
    SplitAt(p, k, n.0, n.1);
    (p[..k] + n.0, n.1)
  }

  lemma BasenameAt(p: string)
    ensures '/' !in p[LastIndexOf(p, '/') + 1..]
  {
    assert p[LastIndexOf(p, '/') + 1..] == Basename(p);
  }

  /** Splitting the tail of `p` after `k` into `x + y` splits `p` as well. */
  lemma SplitAt(p: string, k: nat, x: string, y: string)
    requires k <= |p| && x + y == p[k..]
    ensures (p[..k] + x) + y == p
  {
    assert p[..k] + p[k..] == p;
  }

  /** The extension of one path component: from its last dot on, unless
      every character before that dot is itself a dot (so ".bashrc" and
      "..x" have none). */
  function SplitName(name: string): (r: (string, string))
    requires '/' !in name
    ensures r.0 + r.1 == name
    ensures r.1 == "" || (r.1[0] == '.' && '.' !in r.1[1..] && '/' !in r.1)
    ensures r.1 == "" <==> forall i :: 0 <= i < |name| && name[i] == '.' ==> AllDots(name[..i])
  {
    var dot := LastIndexOf(name, '.');
    if dot >= 0 && !AllDots(name[..dot]) then
      ExtensionShape(name);
      assert name[dot] == '.';
      (name[..dot], name[dot..])
    else
      NoExtensionDots(name);
      (name, "")
  }

  /** When the last dot is missing or has only dots before it, so has
      every dot. */
  lemma NoExtensionDots(name: string)
    requires var dot := LastIndexOf(name, '.'); dot < 0 || AllDots(name[..dot])
    ensures forall i :: 0 <= i < |name| && name[i] == '.' ==> AllDots(name[..i])
  {
    LastIndexOfIsLast(name, '.');
    var dot := LastIndexOf(name, '.');
    forall i | 0 <= i < |name| && name[i] == '.'
      ensures AllDots(name[..i])
    {
      assert dot >= 0 && i <= dot;
      assert forall j :: 0 <= j < i ==> name[..i][j] == name[..dot][j];
    }
  }

  /** From its last dot on, a component holds no other dot. */
  lemma ExtensionShape(name: string)
    requires '/' !in name && LastIndexOf(name, '.') >= 0
    ensures var e := name[LastIndexOf(name, '.')..]; e[0] == '.' && '.' !in e[1..] && '/' !in e
    ensures name[..LastIndexOf(name, '.')] + name[LastIndexOf(name, '.')..] == name
  {
    LastIndexOfIsLast(name, '.');
    var d := LastIndexOf(name, '.');
    var e := name[d..];
    forall i | 0 <= i < |e|
      ensures e[i] != '/' && (i > 0 ==> e[i] != '.')
    {
      assert e[i] == name[d + i];
    }
    var t := e[1..];
    forall i | 0 <= i < |t|
      ensures t[i] != '.'
    {
      assert t[i] == e[i + 1];
    }
  }

  /** A path of one component splits as that component. */
  lemma SplitExtOfName(name: string)
    requires '/' !in name
    ensures SplitExt(name) == SplitName(name)
  {
    assert Basename(name) == name by {
      LastIndexOfIsLast(name, '/');
    }
    var n := SplitName(name);
    assert name[..0] + n.0 == n.0;
  }

  /** Splitting the extension off a path whose last component is `name` only
      touches `name`. */
  lemma SplitExtUnderDir(dir: string, name: string)
    requires '/' !in name
    ensures SplitExt(dir + "/" + name) == (dir + "/" + SplitExt(name).0, SplitExt(name).1)
  {
    var p := dir + "/" + name;
    BasenameUnder(dir, name);
    SplitExtOfName(name);
    assert p[..|p| - |name|] == dir + "/";
  }

  /** A name without dots followed by a one-dot extension splits into the
      two. */
  lemma SplitExtPlain(name: string, ext: string)
    requires |name| > 0 && '.' !in name && '/' !in name
    requires |ext| > 0 && ext[0] == '.' && '.' !in ext[1..] && '/' !in ext
    ensures SplitExt(name + ext) == (name, ext)
  {
    var p := name + ext;
    assert ext == [ext[0]] + ext[1..];
    LastIndexOfAppend(name, ext, '/');
    LastIndexOfAppend(name, ext, '.');
    LastIndexOfAppend([ext[0]], ext[1..], '.');
    assert LastIndexOf(p, '.') == |name|;
    assert p[..|name|] == name && p[|name|..] == ext;
    assert name[0] in name;
    assert !AllDots(p[..|name|]);
    SplitExtOfName(p);
  }

  // ---------------------------------------------------------------------------
  // Python's ordering of str values (lexicographic by code point)
  // ---------------------------------------------------------------------------

  predicate Less(a: string, b: string)
    decreases |a|
  {
    if |a| == 0 then |b| > 0
    else if |b| == 0 then false
    else if a[0] != b[0] then a[0] < b[0]
    else Less(a[1..], b[1..])
  }

  lemma {:induction false} LessIrreflexive(a: string)
    ensures !Less(a, a)
  {
    if |a| > 0 {
      LessIrreflexive(a[1..]);
    }
  }

  lemma {:induction false} LessAsymmetric(a: string, b: string)
    ensures Less(a, b) ==> !Less(b, a)
  {
    if |a| > 0 && |b| > 0 && a[0] == b[0] {
      LessAsymmetric(a[1..], b[1..]);
    }
  }

  /** Any two different strings are ordered one way or the other. */
  lemma {:induction false} LessTotal(a: string, b: string)
    ensures a == b || Less(a, b) || Less(b, a)
  {
    if |a| > 0 && |b| > 0 && a[0] == b[0] {
      LessTotal(a[1..], b[1..]);
      if a[1..] == b[1..] {
        assert a == [a[0]] + a[1..];
        assert b == [b[0]] + b[1..];
      }
    }
  }

  lemma {:induction false} LessTransitive(a: string, b: string, c: string)
    requires Less(a, b) && Less(b, c)
    ensures Less(a, c)
  {
    if |a| > 0 && a[0] == b[0] && b[0] == c[0] {
      LessTransitive(a[1..], b[1..], c[1..]);
    }
  }

  /** Between strings that start with parts of equal length, the first
      parts decide unless they are equal. */
  lemma {:induction false} LessAppend(a: string, b: string, c: string, d: string)
    requires |a| == |b|
    ensures Less(a + c, b + d) <==> Less(a, b) || (a == b && Less(c, d))
  {
    if |a| > 0 {
      assert (a + c)[0] == a[0] && (b + d)[0] == b[0];
      assert (a + c)[1..] == a[1..] + c;
      assert (b + d)[1..] == b[1..] + d;
      LessAppend(a[1..], b[1..], c, d);
      if a[0] == b[0] && a[1..] == b[1..] {
        assert a == [a[0]] + a[1..];
        assert b == [b[0]] + b[1..];
      }
    } else {
      assert a + c == c && b + d == d;
    }
  }
}
