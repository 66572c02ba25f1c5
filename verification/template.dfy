/**
 * The placeholder renderer: `re.sub(r"{{\s*([^}\s]+)\s*}}", lookup, template)`
 * where `lookup` returns the context value for the key, or the whole token
 * text when the key is absent.
 *
 * The renderer is split the way `re.sub` works: `Scan` finds the leftmost
 * non-overlapping matches from left to right and cuts the template into
 * literal characters and tokens, and `Emit` replaces each token.
 */
module Template {
  import opened Text
  import opened Wrappers

  /** A character of the key group `[^}\s]`. */
  predicate IsKeyChar(c: char) {
    c != '}' && !IsSpace(c)
  }

  predicate AllKeyChars(s: string) {
    forall i :: 0 <= i < |s| ==> IsKeyChar(s[i])
  }

  /** A string the key group `([^}\s]+)` can capture. */
  predicate ValidKey(k: string) {
    |k| > 0 && AllKeyChars(k)
  }

  /** The text of a token: two braces, optional whitespace, key, optional
      whitespace, two braces. */
  function TokenText(w1: string, key: string, w2: string): string {
    "{{" + w1 + key + w2 + "}}"
  }

  /** Number of leading whitespace characters (`\s*`, greedy). */
  function SpaceRun(s: string): (n: nat)
    ensures n <= |s|
  {
    if |s| == 0 || !IsSpace(s[0]) then 0 else 1 + SpaceRun(s[1..])
  }

  /** `SpaceRun` stops at the end of the leading whitespace, no earlier and
      no later. */
  lemma {:induction false} SpaceRunMaximal(s: string)
    ensures AllSpace(s[..SpaceRun(s)])
    ensures SpaceRun(s) < |s| ==> !IsSpace(s[SpaceRun(s)])
  {
    if |s| > 0 && IsSpace(s[0]) {
      SpaceRunMaximal(s[1..]);
      assert s[..SpaceRun(s)][1..] == s[1..][..SpaceRun(s[1..])];
    }
  }

  /** Number of leading key characters (`[^}\s]*`, greedy). */
  function KeyRun(s: string): (n: nat)
    ensures n <= |s|
  {
    if |s| == 0 || !IsKeyChar(s[0]) then 0 else 1 + KeyRun(s[1..])
  }

  /** `KeyRun` stops at the end of the leading key characters. */
  lemma {:induction false} KeyRunMaximal(s: string)
    ensures AllKeyChars(s[..KeyRun(s)])
    ensures KeyRun(s) < |s| ==> !IsKeyChar(s[KeyRun(s)])
  {
    if |s| > 0 && IsKeyChar(s[0]) {
      KeyRunMaximal(s[1..]);
      assert s[..KeyRun(s)][1..] == s[1..][..KeyRun(s[1..])];
    }
  }

  /** A match of the token pattern: the captured key and the length of the
      matched text. */
  datatype Match = Match(key: string, len: nat)

  /** The token pattern anchored at the start of `t`. Each `\s*` can only
      stop at the end of its whitespace run (the next part needs a
      non-space), and the key can only stop at the end of its run (the next
      part needs a space or '}'), so greedy scanning finds the one match
      there is. */
  function MatchAt(t: string): (r: Option<Match>)
    ensures r.Some? ==> 5 <= r.value.len <= |t|
  {
    if |t| < 2 || t[0] != '{' || t[1] != '{' then None
    else MatchKey(t, 2 + SpaceRun(t[2..]))
  }

  /** The rest of the pattern once the opening whitespace ends at `a`. */
  function MatchKey(t: string, a: nat): (r: Option<Match>)
    requires a <= |t|
    ensures r.Some? ==> a + 3 <= r.value.len <= |t|
  {
    MatchClose(t, a, a + KeyRun(t[a..]))
  }

  /** The rest of the pattern once the key is `t[a..k]`. */
  function MatchClose(t: string, a: nat, k: nat): (r: Option<Match>)
    requires a <= k <= |t|
    ensures r.Some? ==> k + 2 <= r.value.len <= |t| && a < k
  {
    var b := k + SpaceRun(t[k..]);
    if a < k && b + 2 <= |t| && t[b] == '}' && t[b + 1] == '}' then Some(Match(t[a..k], b + 2))
    else None
  }

  /** The pattern, stated by positions: `t` starts with "{{", whitespace up
      to `a`, a non-empty key `t[a..k]`, whitespace up to `n - 2`, then "}}". */
  predicate TokenAt(t: string, a: nat, k: nat, n: nat) {
    && 2 <= a < k && k + 2 <= n <= |t|
    && t[0] == '{' && t[1] == '{'
    && AllSpace(t[2..a]) && AllKeyChars(t[a..k]) && AllSpace(t[k..n - 2])
    && t[n - 2] == '}' && t[n - 1] == '}'
  }

  lemma {:induction false} SpaceRunExact(s: string, n: nat)
    requires n <= |s| && AllSpace(s[..n]) && (n < |s| ==> !IsSpace(s[n]))
    ensures SpaceRun(s) == n
  {
    if n > 0 {
      assert s[1..][..n - 1] == s[..n][1..];
      SpaceRunExact(s[1..], n - 1);
    }
  }

  lemma {:induction false} KeyRunExact(s: string, n: nat)
    requires n <= |s| && AllKeyChars(s[..n]) && (n < |s| ==> !IsKeyChar(s[n]))
    ensures KeyRun(s) == n
  {
    if n > 0 {
      assert s[1..][..n - 1] == s[..n][1..];
      KeyRunExact(s[1..], n - 1);
    } else if |s| > 0 {
      assert s[0] == s[n];
    }
  }

  lemma MatchAtFromRuns(t: string, a: nat, k: nat, n: nat)
    requires |t| >= 2 && t[0] == '{' && t[1] == '{'
    requires 2 <= a < k <= |t| && SpaceRun(t[2..]) == a - 2 && KeyRun(t[a..]) == k - a
    requires k + 2 <= n <= |t| && SpaceRun(t[k..]) == n - 2 - k
    requires t[n - 2] == '}' && t[n - 1] == '}'
    ensures MatchAt(t) == Some(Match(t[a..k], n))
  {
    assert MatchClose(t, a, k) == Some(Match(t[a..k], n));
    assert MatchKey(t, a) == MatchClose(t, a, k);
  }

  lemma RunsOfTokenAt(t: string, a: nat, k: nat, n: nat)
    requires TokenAt(t, a, k, n)
    ensures SpaceRun(t[2..]) == a - 2 && KeyRun(t[a..]) == k - a && SpaceRun(t[k..]) == n - 2 - k
  {
    assert t[2..][..a - 2] == t[2..a];
    assert t[2..][a - 2] == t[a] == t[a..k][0];
    SpaceRunExact(t[2..], a - 2);
    assert t[a..][..k - a] == t[a..k];
    assert t[a..][k - a] == t[k];
    if k < n - 2 {
      assert t[k] == t[k..n - 2][0];
    }
    KeyRunExact(t[a..], k - a);
    assert t[k..][..n - 2 - k] == t[k..n - 2];
    assert t[k..][n - 2 - k] == t[n - 2];
    SpaceRunExact(t[k..], n - 2 - k);
  }

  /** Completeness and uniqueness: wherever the pattern can be laid over the
      start of `t`, `MatchAt` finds exactly that key and length. As `MatchAt`
      is a function, two ways of laying the pattern over the same text agree,
      so the key of a token is unambiguous. */
  lemma MatchAtComplete(t: string, a: nat, k: nat, n: nat)
    requires TokenAt(t, a, k, n)
    ensures MatchAt(t) == Some(Match(t[a..k], n))
  {
    RunsOfTokenAt(t, a, k, n);
    MatchAtFromRuns(t, a, k, n);
  }

  /** Soundness: what `MatchAt` reports is the pattern laid over the start of
      `t`, with the key it captures. */
  lemma MatchAtSound(t: string)
    requires MatchAt(t).Some?
    ensures exists a: nat, k: nat :: TokenAt(t, a, k, MatchAt(t).value.len) && MatchAt(t).value.key == t[a..k]
  {
    MatchAtShape(t);
    var a := 2 + SpaceRun(t[2..]);
    var k := a + KeyRun(t[a..]);
    var n := MatchAt(t).value.len;
    MatchAtRuns(t, a, k, n);
    TokenAtOfScan(t, a, k, n);
    assert TokenAt(t, a, k, n) && MatchAt(t).value.key == t[a..k];
  }

  /** A successful `MatchAt` starts with the opening braces. */
  lemma MatchAtShape(t: string)
    requires MatchAt(t).Some?
    ensures |t| >= 2 && t[0] == '{' && t[1] == '{'
  {
  }

  /** What a successful `MatchAt` has read: the whitespace and key runs,
      then the closing braces. */
  lemma MatchAtRuns(t: string, a: nat, k: nat, n: nat)
    requires MatchAt(t).Some? && |t| >= 2
    requires a == 2 + SpaceRun(t[2..]) && a <= |t| && k == a + KeyRun(t[a..]) && n == MatchAt(t).value.len
    ensures a < k <= |t| && n == k + SpaceRun(t[k..]) + 2 && n <= |t|
    ensures t[n - 2] == '}' && t[n - 1] == '}' && MatchAt(t).value.key == t[a..k]
  {
  }

  /** The greedy runs of a scan that ends at "}}" lay the pattern. */
  lemma TokenAtOfScan(t: string, a: nat, k: nat, n: nat)
    requires |t| >= 2 && t[0] == '{' && t[1] == '{'
    requires a == 2 + SpaceRun(t[2..]) && k == a + KeyRun(t[a..]) && a < k
    requires n == k + SpaceRun(t[k..]) + 2 && n <= |t|
    requires t[n - 2] == '}' && t[n - 1] == '}'
    ensures TokenAt(t, a, k, n)
  {
    SpaceRunMaximal(t[2..]);
    KeyRunMaximal(t[a..]);
    SpaceRunMaximal(t[k..]);
    TokenAtOfRuns(t, a, k, n);
  }

  /** The runs, read off as prefixes, lay the pattern over `t`. */
  lemma TokenAtOfRuns(t: string, a: nat, k: nat, n: nat)
    requires |t| >= 2 && t[0] == '{' && t[1] == '{'
    requires 2 <= a < k && k + 2 <= n <= |t|
    requires AllSpace(t[2..][..a - 2]) && AllKeyChars(t[a..][..k - a]) && AllSpace(t[k..][..n - 2 - k])
    requires t[n - 2] == '}' && t[n - 1] == '}'
    ensures TokenAt(t, a, k, n)
  {
    assert t[2..a] == t[2..][..a - 2];
    assert t[a..k] == t[a..][..k - a];
    assert t[k..n - 2] == t[k..][..n - 2 - k];
  }

  /** The text `TokenText(w1, key, w2)` lays the pattern with key `key`. */
  lemma TokenTextAt(w1: string, key: string, w2: string, rest: string)
    requires AllSpace(w1) && AllSpace(w2) && ValidKey(key)
    ensures var t := TokenText(w1, key, w2) + rest;
            var a := 2 + |w1|;
            var k := a + |key|;
            TokenAt(t, a, k, |TokenText(w1, key, w2)|) && t[a..k] == key
  {
    var t := TokenText(w1, key, w2) + rest;
    var a := 2 + |w1|;
    var k := a + |key|;
    var n := |TokenText(w1, key, w2)|;
    assert t[2..a] == w1;
    assert t[a..k] == key;
    assert t[k..n - 2] == w2;
  }

  /** A token written as `TokenText` is found with its key, whatever follows:
      `{{name}}` and `{{  name }}` look up the same key. */
  lemma MatchTokenText(w1: string, key: string, w2: string, rest: string)
    requires AllSpace(w1) && AllSpace(w2) && ValidKey(key)
    ensures MatchAt(TokenText(w1, key, w2) + rest) == Some(Match(key, |TokenText(w1, key, w2)|))
  {
    TokenTextAt(w1, key, w2, rest);
    MatchAtComplete(TokenText(w1, key, w2) + rest, 2 + |w1|, 2 + |w1| + |key|, |TokenText(w1, key, w2)|);
  }

  // ---------------------------------------------------------------------------
  // Scanning and rendering
  // ---------------------------------------------------------------------------

  /** A piece of a scanned template: a character copied as is, or a token
      with its key and its original text. */
  datatype Piece = Lit(c: char) | Tok(key: string, raw: string)

  /** `re.sub`'s left-to-right search: a token where the pattern matches,
      otherwise one literal character, then continue after it. */
  function Scan(t: string): seq<Piece>
    decreases |t|
  {
    if |t| == 0 then []
    else
      match MatchAt(t)
      case Some(m) => [Tok(m.key, t[..m.len])] + Scan(t[m.len..])
      case None => [Lit(t[0])] + Scan(t[1..])
  }

  function RawOf(p: Piece): string {
    match p
    case Lit(c) => [c]
    case Tok(_, raw) => raw
  }

  /** The original text the pieces cover. */
  function Raw(ps: seq<Piece>): string {
    if |ps| == 0 then "" else RawOf(ps[0]) + Raw(ps[1..])
  }

  /** The replacement for one piece: `str(context.get(key, match.group(0)))`. */
  function Out(p: Piece, ctx: map<string, string>): string {
    match p
    case Lit(c) => [c]
    case Tok(k, raw) => if k in ctx then ctx[k] else raw
  }

  function Emit(ps: seq<Piece>, ctx: map<string, string>): string {
    if |ps| == 0 then "" else Out(ps[0], ctx) + Emit(ps[1..], ctx)
  }

  /** `render(template, **context)`. */
  function Render(template: string, ctx: map<string, string>): string {
    Emit(Scan(template), ctx)
  }

  /** Piece `p` is what the search finds at the start of `u`, the text that
      remains from its position on. */
  predicate PieceAt(u: string, p: Piece) {
    match p
    case Lit(c) => |u| > 0 && u[0] == c && MatchAt(u) == None
    case Tok(k, raw) => MatchAt(u) == Some(Match(k, |raw|)) && |raw| <= |u| && u[..|raw|] == raw
  }

  /** A leftmost, non-overlapping scan of `t`: the pieces cover `t` exactly,
      and every piece is what the search finds where it starts. */
  predicate LeftmostScan(t: string, ps: seq<Piece>) {
    && Raw(ps) == t
    && forall i :: 0 <= i < |ps| ==> PieceAt(Raw(ps[i..]), ps[i])
  }

  /** `Scan` is lossless: its pieces put back together give the template. */
  lemma {:induction false} ScanLossless(t: string)
    ensures Raw(Scan(t)) == t
    decreases |t|
  {
    if |t| > 0 {
      match MatchAt(t)
      case Some(m) =>
        assert Scan(t) == [Tok(m.key, t[..m.len])] + Scan(t[m.len..]);
        ScanLossless(t[m.len..]);
        RawCons(Tok(m.key, t[..m.len]), Scan(t[m.len..]));
        assert t == t[..m.len] + t[m.len..];
      case None =>
        assert Scan(t) == [Lit(t[0])] + Scan(t[1..]);
        ScanLossless(t[1..]);
        RawCons(Lit(t[0]), Scan(t[1..]));
        assert t == [t[0]] + t[1..];
    }
  }

  lemma RawCons(p: Piece, ps: seq<Piece>)
    ensures Raw([p] + ps) == RawOf(p) + Raw(ps)
  {
    assert ([p] + ps)[1..] == ps;
  }

  /** `Scan` is a leftmost non-overlapping scan. */
  lemma {:induction false} ScanIsLeftmost(t: string)
    ensures LeftmostScan(t, Scan(t))
    decreases |t|
  {
    ScanLossless(t);
    if |t| > 0 {
      var ps := Scan(t);
      var n := |RawOf(ps[0])|;
      assert t[n..] == Raw(ps[1..]) by {
        assert t == RawOf(ps[0]) + Raw(ps[1..]);
      }
      match MatchAt(t)
      case Some(m) =>
        ScanIsLeftmost(t[m.len..]);
      case None =>
        ScanIsLeftmost(t[1..]);
      assert LeftmostScan(t[n..], ps[1..]);
      forall i | 0 <= i < |ps|
        ensures PieceAt(Raw(ps[i..]), ps[i])
      {
        if i == 0 {
          assert ps[0..] == ps;
        } else {
          assert ps[i..] == ps[1..][i - 1..];
        }
      }
    }
  }

  /** The leftmost scan of a text is unique: any decomposition with the
      leftmost property is the one `Scan` computes. */
  lemma {:induction false} LeftmostScanUnique(t: string, ps: seq<Piece>)
    requires LeftmostScan(t, ps)
    ensures ps == Scan(t)
    decreases |ps|
  {
    if |ps| > 0 {
      LeftmostScanTail(t, ps);
      LeftmostScanUnique(t[|RawOf(ps[0])|..], ps[1..]);
      ScanStep(t, ps[0]);
      assert ps == [ps[0]] + ps[1..];
    }
  }

  /** After its first piece, a leftmost scan goes on as one of the rest. */
  lemma LeftmostScanTail(t: string, ps: seq<Piece>)
    requires LeftmostScan(t, ps) && |ps| > 0
    ensures PieceAt(t, ps[0])
    ensures |RawOf(ps[0])| <= |t| && LeftmostScan(t[|RawOf(ps[0])|..], ps[1..])
  {
    assert ps[0..] == ps;
    var n := |RawOf(ps[0])|;
    assert t == RawOf(ps[0]) + Raw(ps[1..]);
    assert t[n..] == Raw(ps[1..]);
    forall i | 0 <= i < |ps[1..]|
      ensures PieceAt(Raw(ps[1..][i..]), ps[1..][i])
    {
      assert ps[1..][i..] == ps[i + 1..];
    }
  }

  /** `Scan` takes a piece found at the start of the text first. */
  lemma ScanStep(t: string, p: Piece)
    requires PieceAt(t, p)
    ensures |RawOf(p)| <= |t| && Scan(t) == [p] + Scan(t[|RawOf(p)|..])
  {
  }

  lemma {:induction false} EmitUnresolved(ps: seq<Piece>, ctx: map<string, string>)
    requires forall i :: 0 <= i < |ps| ==> ps[i].Tok? ==> ps[i].key !in ctx
    ensures Emit(ps, ctx) == Raw(ps)
  {
    if |ps| > 0 {
      EmitUnresolved(ps[1..], ctx);
    }
  }

  /** Tokens whose key is missing from the context are left byte-identical:
      when no token of the template has its key in the context, rendering
      returns the template unchanged. This also covers re-rendering an
      already fully resolved output. */
  lemma RenderUnresolved(t: string, ctx: map<string, string>)
    requires forall i :: 0 <= i < |Scan(t)| ==> Scan(t)[i].Tok? ==> Scan(t)[i].key !in ctx
    ensures Render(t, ctx) == t
  {
    EmitUnresolved(Scan(t), ctx);
    ScanLossless(t);
  }

  /** Rendering with an empty context is the identity. */
  lemma RenderEmptyContext(t: string)
    ensures Render(t, map[]) == t
  {
    RenderUnresolved(t, map[]);
  }

  /** A token at the front is replaced by its value (or kept when its key is
      missing), and the rest is rendered on its own: the inserted value is
      never scanned again. */
  lemma RenderTokenFirst(w1: string, key: string, w2: string, rest: string, ctx: map<string, string>)
    requires AllSpace(w1) && AllSpace(w2) && ValidKey(key)
    ensures Render(TokenText(w1, key, w2) + rest, ctx)
         == (if key in ctx then ctx[key] else TokenText(w1, key, w2)) + Render(rest, ctx)
  {
    var tok := TokenText(w1, key, w2);
    var t := tok + rest;
    MatchTokenText(w1, key, w2, rest);
    assert t[..|tok|] == tok;
    assert t[|tok|..] == rest;
    assert Scan(t) == [Tok(key, tok)] + Scan(rest);
    assert ([Tok(key, tok)] + Scan(rest))[1..] == Scan(rest);
  }

  /** Text without an opening brace is copied as is, and rendering carries on
      after it as if it were not there. */
  lemma {:induction false} RenderLiteralPrefix(a: string, b: string, ctx: map<string, string>)
    requires '{' !in a
    ensures Render(a + b, ctx) == a + Render(b, ctx)
  {
    if |a| > 0 {
      var t := a + b;
      assert t[0] == a[0];
      assert MatchAt(t) == None;
      assert t[1..] == a[1..] + b;
      RenderLiteralPrefix(a[1..], b, ctx);
      assert Scan(t) == [Lit(a[0])] + Scan(t[1..]);
      EmitCons(Lit(a[0]), Scan(t[1..]), ctx);
      assert a == [a[0]] + a[1..];
    } else {
      assert a + b == b;
    }
  }

  /** No match can start inside `a`, whatever follows it: every `{` of `a`
      is followed, still inside `a`, by a character other than `{`. */
  predicate Inert(a: string) {
    |a| == 0 || ((a[0] == '{' ==> |a| > 1 && a[1] != '{') && Inert(a[1..]))
  }

  /** Inert text is exactly text without `{{` that does not end in `{`. */
  lemma {:induction false} InertIff(a: string)
    ensures Inert(a) <==> forall i :: 0 <= i < |a| && a[i] == '{' ==> i + 1 < |a| && a[i + 1] != '{'
  {
    if |a| > 0 {
      InertIff(a[1..]);
      if forall i :: 0 <= i < |a| && a[i] == '{' ==> i + 1 < |a| && a[i + 1] != '{' {
        forall i | 0 <= i < |a| - 1 && a[1..][i] == '{'
          ensures i + 1 < |a| - 1 && a[1..][i + 1] != '{'
        {
          assert a[i + 1] == '{';
        }
      }
      if Inert(a) {
        forall i | 0 <= i < |a| && a[i] == '{'
          ensures i + 1 < |a| && a[i + 1] != '{'
        {
          if i > 0 {
            assert a[1..][i - 1] == '{';
          }
        }
      }
    }
  }

  lemma {:induction false} NoBraceInert(a: string)
    requires '{' !in a
    ensures Inert(a)
  {
    if |a| > 0 {
      assert a[0] in a;
      assert forall c :: c in a[1..] ==> c in a;
      NoBraceInert(a[1..]);
    }
  }

  /** Text in which no match can start is copied as is, and rendering
      carries on after it as if it were not there. Single braces, as in
      inline CSS `p{margin:0}`, are allowed. */
  lemma {:induction false} RenderInertPrefix(a: string, b: string, ctx: map<string, string>)
    requires Inert(a)
    ensures Render(a + b, ctx) == a + Render(b, ctx)
  {
    if |a| > 0 {
      var t := a + b;
      InertStep(a, b);
      RenderLitStep(t, ctx);
      assert t[1..] == a[1..] + b;
      RenderInertPrefix(a[1..], b, ctx);
      assert a == [a[0]] + a[1..];
      assert [a[0]] + (a[1..] + Render(b, ctx)) == a + Render(b, ctx);
    } else {
      assert a + b == b;
    }
  }

  /** Where no match starts, rendering copies one character and moves on. */
  lemma RenderLitStep(t: string, ctx: map<string, string>)
    requires |t| > 0 && MatchAt(t) == None
    ensures Render(t, ctx) == [t[0]] + Render(t[1..], ctx)
  {
    assert Scan(t) == [Lit(t[0])] + Scan(t[1..]);
    EmitCons(Lit(t[0]), Scan(t[1..]), ctx);
  }

  /** No match starts at the front of inert text. */
  lemma InertStep(a: string, b: string)
    requires Inert(a) && |a| > 0
    ensures MatchAt(a + b) == None && Inert(a[1..])
  {
    var t := a + b;
    assert t[0] == a[0];
    if a[0] == '{' {
      assert t[1] == a[1];
    }
  }

  lemma EmitCons(p: Piece, ps: seq<Piece>, ctx: map<string, string>)
    ensures Emit([p] + ps, ctx) == Out(p, ctx) + Emit(ps, ctx)
  {
    assert ([p] + ps)[1..] == ps;
  }

  /** Text without an opening brace renders as itself. */
  lemma RenderNoBrace(s: string, ctx: map<string, string>)
    requires '{' !in s
    ensures Render(s, ctx) == s
  {
    RenderLiteralPrefix(s, "", ctx);
    assert s + "" == s;
    assert Render("", ctx) == "";
  }

  /** A placeholder followed by plain text. */
  lemma RenderTokenThenText(w1: string, key: string, w2: string, post: string, ctx: map<string, string>)
    requires '{' !in post
    requires AllSpace(w1) && AllSpace(w2) && ValidKey(key)
    ensures Render(TokenText(w1, key, w2) + post, ctx)
         == (if key in ctx then ctx[key] else TokenText(w1, key, w2)) + post
  {
    RenderTokenFirst(w1, key, w2, post, ctx);
    RenderNoBrace(post, ctx);
  }

  /** A template with one placeholder and no other opening brace: the
      placeholder is replaced (or kept when its key is missing) and the
      text around it is copied. */
  lemma RenderOneToken(pre: string, w1: string, key: string, w2: string, post: string, ctx: map<string, string>)
    requires '{' !in pre && '{' !in post
    requires AllSpace(w1) && AllSpace(w2) && ValidKey(key)
    ensures Render(pre + (TokenText(w1, key, w2) + post), ctx)
         == pre + ((if key in ctx then ctx[key] else TokenText(w1, key, w2)) + post)
  {
    RenderLiteralPrefix(pre, TokenText(w1, key, w2) + post, ctx);
    RenderTokenThenText(w1, key, w2, post, ctx);
  }

  // ---------------------------------------------------------------------------
  // Templates written as text and placeholders
  // ---------------------------------------------------------------------------

  /** A template as its author writes it: runs of plain text and
      placeholders `{{ key }}`. */
  datatype Segment = Text(text: string) | Slot(w1: string, key: string, w2: string)

  /** No match starts inside plain text, and a placeholder is one the
      pattern matches. */
  predicate WellFormed(s: Segment) {
    match s
    case Text(text) => Inert(text)
    case Slot(w1, key, w2) => AllSpace(w1) && ValidKey(key) && AllSpace(w2)
  }

  predicate AllWellFormed(segs: seq<Segment>) {
    forall i :: 0 <= i < |segs| ==> WellFormed(segs[i])
  }

  function SegmentText(s: Segment): string {
    match s
    case Text(text) => text
    case Slot(w1, key, w2) => TokenText(w1, key, w2)
  }

  /** The template text the segments spell. */
  function Written(segs: seq<Segment>): string {
    if |segs| == 0 then "" else SegmentText(segs[0]) + Written(segs[1..])
  }

  /** Filling in the placeholders by hand: a placeholder whose key the
      context has becomes its value, and every other segment stays as
      written. */
  function Fill(segs: seq<Segment>, ctx: map<string, string>): string {
    if |segs| == 0 then ""
    else
      var s := segs[0];
      (if s.Slot? && s.key in ctx then ctx[s.key] else SegmentText(s)) + Fill(segs[1..], ctx)
  }

  /** Rendering a well-formed template is filling it in by hand: each
      placeholder is replaced or kept, the text between placeholders is
      copied, and the values put in are not scanned again. */
  lemma {:induction false} RenderWritten(segs: seq<Segment>, ctx: map<string, string>)
    requires AllWellFormed(segs)
    ensures Render(Written(segs), ctx) == Fill(segs, ctx)
  {
    if |segs| == 0 {
      assert Scan("") == [];
    } else {
      var rest := segs[1..];
      assert AllWellFormed(rest) by {
        forall i | 0 <= i < |rest|
          ensures WellFormed(rest[i])
        {
          assert rest[i] == segs[i + 1];
        }
      }
      RenderWritten(rest, ctx);
      assert WellFormed(segs[0]);
      match segs[0]
      case Text(text) =>
        RenderInertPrefix(text, Written(rest), ctx);
      case Slot(w1, key, w2) =>
        RenderTokenFirst(w1, key, w2, Written(rest), ctx);
    }
  }

  lemma {:induction false} WrittenAppend(a: seq<Segment>, b: seq<Segment>)
    ensures Written(a + b) == Written(a) + Written(b)
  {
    if |a| > 0 {
      assert (a + b)[1..] == a[1..] + b;
      WrittenAppend(a[1..], b);
    } else {
      assert a + b == b;
    }
  }

  lemma {:induction false} FillAppend(a: seq<Segment>, b: seq<Segment>, ctx: map<string, string>)
    ensures Fill(a + b, ctx) == Fill(a, ctx) + Fill(b, ctx)
  {
    if |a| > 0 {
      assert (a + b)[1..] == a[1..] + b;
      FillAppend(a[1..], b, ctx);
    } else {
      assert a + b == b;
    }
  }

  /** No placeholder of `segs` has its key in `ctx`. */
  predicate NoSlotIn(segs: seq<Segment>, ctx: map<string, string>) {
    forall i :: 0 <= i < |segs| ==> segs[i].Slot? ==> segs[i].key !in ctx
  }

  /** Segments whose placeholders the context does not know are left as
      written. */
  lemma {:induction false} FillUntouched(segs: seq<Segment>, ctx: map<string, string>)
    requires NoSlotIn(segs, ctx)
    ensures Fill(segs, ctx) == Written(segs)
  {
    if |segs| > 0 {
      assert NoSlotIn(segs[1..], ctx) by {
        forall i | 0 <= i < |segs| - 1
          ensures segs[1..][i].Slot? ==> segs[1..][i].key !in ctx
        {
          assert segs[1..][i] == segs[i + 1];
        }
      }
      FillUntouched(segs[1..], ctx);
    }
  }

  /** An unknown key leaves the placeholder verbatim. */
  lemma RenderExampleMissing()
    ensures Render("{{ missing }}", map[]) == "{{ missing }}"
  {
    RenderEmptyContext("{{ missing }}");
  }

  /** The whitespace inside the braces does not matter: `{{name}}` and
      `{{  name }}` render alike. */
  lemma RenderSpacingIrrelevant(w1: string, v1: string, key: string, w2: string, v2: string, rest: string, ctx: map<string, string>)
    requires AllSpace(w1) && AllSpace(w2) && AllSpace(v1) && AllSpace(v2) && ValidKey(key)
    requires key in ctx
    ensures Render(TokenText(w1, key, w2) + rest, ctx) == Render(TokenText(v1, key, v2) + rest, ctx)
  {
    RenderTokenFirst(w1, key, w2, rest, ctx);
    RenderTokenFirst(v1, key, v2, rest, ctx);
  }

  /** A key cannot contain whitespace, so this is no placeholder. */
  lemma MatchExampleInnerSpace()
    ensures MatchAt("{{a b}}") == None
  {
    var t := "{{a b}}";
    assert SpaceRun(t[2..]) == 0;
    assert KeyRun(t[2..]) == 1;
    assert SpaceRun(t[3..]) == 1;
  }
}
