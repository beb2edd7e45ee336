/**
  scripts/wordlists/extract_paths_from_ffuf.py: turns the `url` of every entry
  of an ffuf result file into a wordlist seed, the first path segment, and
  prints the distinct seeds in sorted order.
 */
module FfufPaths {

  import opened Optional
  import opened PyText
  import opened PyOrder

  /** The longest token `norm_token` keeps. */
  const MaxTokenLength := 80

  /** `p.split("?", 1)[0].split("#", 1)[0]`: `p` without query and fragment. */
  function WithoutQuery(p: string): (r: string)
    ensures '?' !in r && '#' !in r
    ensures |r| <= |p| && r == p[..|r|]
    ensures |r| == |p| || p[|r|] == '?' || p[|r|] == '#'
  {
    var q := Before(p, '?');
    var r := Before(q, '#');
    assert r == p[..|r|];
    r
  }

  /** `p.strip("/")` after the query and fragment are cut. */
  function PathCore(p: string): (r: string)
    ensures '?' !in r && '#' !in r
  {
    var q := WithoutQuery(p);
    StripSubset(q, Slashes);
    Strip(q, Slashes)
  }

  /** `p.split("/", 1)[0].strip()`: the first segment, without surrounding
      whitespace. */
  function FirstSegment(p: string): (seg: string)
    ensures '/' !in seg
    ensures forall c :: c in seg ==> c in p
    ensures seg == [] || (!IsSpace(seg[0]) && !IsSpace(seg[|seg| - 1]))
  {
    var first := Before(p, '/');
    StripSubset(first, Whitespace);
    assert forall c :: c in first ==> c in p;
    Strip(first, Whitespace)
  }

  /** `norm_token(p)`: the first segment of the path `p`, without query,
      fragment or surrounding whitespace; "" when there is none or it is
      longer than `MaxTokenLength`. */
  function NormToken(p: string): (r: string)
    ensures r != [] ==> 1 <= |r| <= MaxTokenLength
    ensures '/' !in r && '?' !in r && '#' !in r
    ensures r == [] || (!IsSpace(r[0]) && !IsSpace(r[|r| - 1]))
  {
    var p1 := Strip(p, Whitespace);
    if p1 == [] then ""
    else
      var p2 := PathCore(p1);
      if p2 == [] then ""
      else
        var seg := FirstSegment(p2);
        if seg == [] || |seg| > MaxTokenLength then "" else seg
  }

  /** Normalising a token again changes nothing. */
  lemma NormTokenIdempotent(p: string)
    ensures NormToken(NormToken(p)) == NormToken(p)
  {
    var r := NormToken(p);
    if r != [] {
      CleanTokenKept(r);
    }
  }

  /** A short string with no `/`, `?` or `#` and no surrounding whitespace is
      its own token. */
  lemma CleanTokenKept(t: string)
    requires CleanSegment(t) && |t| <= MaxTokenLength
    ensures NormToken(t) == t
  {
    StripKeeps(t, Whitespace);
    assert Strip(t, Whitespace) == t;
    assert Before(t, '?') == t;
    assert Before(t, '#') == t;
    assert WithoutQuery(t) == t;
    StripKeeps(t, Slashes);
    assert Strip(t, Slashes) == t;
    assert Before(t, '/') == t;
  }

  /** A path with nothing but slashes and whitespace before its first `?` or
      `#` (a whitespace-only path among them) yields no token. */
  lemma NormTokenBlank(p: string)
    requires forall c :: c in WithoutQuery(p) ==> c == '/' || IsSpace(c)
    ensures NormToken(p) == ""
  {
    var p1 := Strip(p, Whitespace);
    if p1 != [] {
      StripSubset(WithoutQuery(p1), Slashes);
      CutStripChars(p);
      var p2 := PathCore(p1);
      if p2 != [] {
        FirstSegmentBlank(p2);
      }
    }
  }

  /** Only whitespace comes before the first `/` of a text of slashes and
      whitespace, so its first segment is empty. */
  lemma FirstSegmentBlank(p: string)
    requires forall c :: c in p ==> c == '/' || IsSpace(c)
    ensures FirstSegment(p) == ""
  {
    var first := Before(p, '/');
    assert forall c :: c in first ==> c in p;
    StripEmpty(first, Whitespace);
  }

  /** Stripping whitespace before cutting brings in no new character. */
  lemma CutStripChars(p: string)
    ensures forall c :: c in WithoutQuery(Strip(p, Whitespace)) ==> c in WithoutQuery(p)
  {
    var q := WithoutQuery(Strip(p, Whitespace));
    forall c | c in q ensures c in WithoutQuery(p) {
      var i :| 0 <= i < |q| && q[i] == c;
      StripThenCutAt(p, i);
    }
  }

  /** The query-free part of the stripped path is a slice of the query-free
      part of the path itself. */
  lemma StripThenCutAt(p: string, i: nat)
    requires i < |WithoutQuery(Strip(p, Whitespace))|
    ensures StripStart(p, Whitespace) + i < |WithoutQuery(p)|
    ensures WithoutQuery(Strip(p, Whitespace))[i] == WithoutQuery(p)[StripStart(p, Whitespace) + i]
  {
    var a := StripStart(p, Whitespace);
    CutWithinStrip(p, i);
    forall j | 0 <= j < a ensures p[j] != '?' && p[j] != '#' {
      assert IsSpace(p[j]);
    }
    NoCutUpTo(p, a + i);
  }

  /** Each character the stripped and cut path keeps sits at its offset in
      the path, with no `?` or `#` between there and the strip point. */
  lemma CutWithinStrip(p: string, i: nat)
    requires i < |WithoutQuery(Strip(p, Whitespace))|
    ensures StripStart(p, Whitespace) + i < |p|
    ensures WithoutQuery(Strip(p, Whitespace))[i] == p[StripStart(p, Whitespace) + i]
    ensures forall j :: StripStart(p, Whitespace) <= j <= StripStart(p, Whitespace) + i ==> p[j] != '?' && p[j] != '#'
  {
    var a := StripStart(p, Whitespace);
    var p1 := Strip(p, Whitespace);
    PrefixOfSlice(p, p1, WithoutQuery(p1), a, i);
  }

  /** A query-free prefix `q` of the slice `p1 == p[a..]` sits at offset `a`
      in `p`. */
  lemma PrefixOfSlice(p: string, p1: string, q: string, a: nat, i: nat)
    requires a + |p1| <= |p| && p1 == p[a..a + |p1|]
    requires |q| <= |p1| && q == p1[..|q|] && '?' !in q && '#' !in q
    requires i < |q|
    ensures a + i < |p| && q[i] == p[a + i]
    ensures forall j :: a <= j <= a + i ==> p[j] != '?' && p[j] != '#'
  {
    forall j | a <= j <= a + i ensures p[j] != '?' && p[j] != '#' {
      assert p[j] == p1[j - a] == q[j - a];
    }
  }

  /** Cutting at `?` and `#` keeps every character with neither at or before it. */
  lemma NoCutUpTo(p: string, n: nat)
    requires n < |p|
    requires forall j :: 0 <= j <= n ==> p[j] != '?' && p[j] != '#'
    ensures n < |WithoutQuery(p)| && WithoutQuery(p)[n] == p[n]
  {
  }

  /** A segment fit to be a token: non-empty, no `/`, `?` or `#`, and no
      whitespace at either end. */
  predicate CleanSegment(seg: string) {
    && seg != [] && '/' !in seg && '?' !in seg && '#' !in seg
    && !IsSpace(seg[0]) && !IsSpace(seg[|seg| - 1])
  }

  /** `norm_token` keeps the first segment of a path and drops whatever
      follows it (more segments, a query, a fragment); a first segment longer
      than `MaxTokenLength` gives no token at all. */
  lemma NormTokenFirstSegment(seg: string, rest: string)
    requires CleanSegment(seg)
    requires rest == [] || rest[0] == '/' || rest[0] == '?' || rest[0] == '#'
    ensures NormToken("/" + seg + rest) == if |seg| <= MaxTokenLength then seg else ""
  {
    var p := "/" + seg + rest;
    var r1 := StripPathEnd(seg, rest);
    var p1 := "/" + seg + r1;
    assert Strip(p, Whitespace) == p1;
    var w := CutAfterSegment(seg, r1);
    var v := SlashStripAfterSegment(seg, w);
    var p2 := seg + v;
    assert PathCore(p1) == p2 by {
      assert WithoutQuery(p1) == "/" + seg + w;
    }
    FirstSegmentOf(seg, v);
    NormTokenSteps(p, p1, p2);
  }

  /** `norm_token` in terms of its intermediate values. */
  lemma NormTokenSteps(p: string, p1: string, p2: string)
    requires p1 == Strip(p, Whitespace) && p1 != []
    requires p2 == PathCore(p1) && p2 != []
    ensures NormToken(p) == if FirstSegment(p2) == [] || |FirstSegment(p2)| > MaxTokenLength then "" else FirstSegment(p2)
  {
  }

  lemma FirstSegmentOf(seg: string, v: string)
    requires CleanSegment(seg)
    requires v == [] || v[0] == '/'
    ensures FirstSegment(seg + v) == seg
  {
    BeforeAppend(seg, v, '/');
    assert Before(v, '/') == [];
    assert seg + [] == seg;
    StripKeeps(seg, Whitespace);
  }

  /** Stripping whitespace from `"/" + seg + rest` only shortens `rest`. */
  lemma StripPathEnd(seg: string, rest: string) returns (r: string)
    requires CleanSegment(seg)
    requires rest == [] || rest[0] == '/' || rest[0] == '?' || rest[0] == '#'
    ensures Strip("/" + seg + rest, Whitespace) == "/" + seg + r
    ensures r == [] || r[0] == rest[0]
  {
    var head := "/" + seg;
    assert TrimStart(head + rest, Whitespace) == head + rest;
    TrimEndAfterKept(head, rest, Whitespace);
    r := TrimEnd(rest, Whitespace);
  }

  /** Cutting query and fragment from `"/" + seg + rest` leaves `seg` followed
      by nothing or by a new segment. */
  lemma CutAfterSegment(seg: string, rest: string) returns (w: string)
    requires CleanSegment(seg)
    requires rest == [] || rest[0] == '/' || rest[0] == '?' || rest[0] == '#'
    ensures WithoutQuery("/" + seg + rest) == "/" + seg + w
    ensures w == [] || w[0] == '/'
  {
    var head := "/" + seg;
    BeforeAppend(head, rest, '?');
    var x := Before(rest, '?');
    assert x == [] || x[0] == rest[0];
    BeforeAppend(head, x, '#');
    w := Before(x, '#');
    assert w == [] || w[0] == x[0];
  }

  /** Stripping slashes from `"/" + seg + w` removes the leading slash and
      leaves `seg` followed by nothing or by a new segment. */
  lemma SlashStripAfterSegment(seg: string, w: string) returns (v: string)
    requires CleanSegment(seg)
    requires w == [] || w[0] == '/'
    ensures Strip("/" + seg + w, Slashes) == seg + v
    ensures v == [] || v[0] == '/'
  {
    assert "/" + seg + w == "/" + (seg + w);
    TrimStartSkips("/", seg + w, Slashes);
    TrimEndAfterKept(seg, w, Slashes);
    v := TrimEnd(w, Slashes);
  }

  /** The groups of a `URL_RE` match: scheme, authority and the named group `path`. */
  datatype UrlParts = UrlParts(scheme: string, host: string, path: string)

  /** `https?` under `re.IGNORECASE`. */
  predicate IsHttpScheme(s: string) {
    MatchesIgnoringCase(s, "http") || MatchesIgnoringCase(s, "https")
  }

  /** The length of the `https?` the URL starts with when `://` follows it, else 0. */
  function SchemeLength(u: string): (n: nat)
    ensures n == 0 || n == 4 || n == 5
    ensures n > 0 ==> n + 3 <= |u| && IsHttpScheme(u[..n]) && u[n..n + 3] == "://"
  {
    if |u| >= 8 && MatchesIgnoringCase(u[..5], "https") && u[5..8] == "://" then 5
    else if |u| >= 7 && MatchesIgnoringCase(u[..4], "http") && u[4..7] == "://" then 4
    else 0
  }

  lemma SchemeLengthOf(scheme: string, tail: string)
    requires IsHttpScheme(scheme)
    requires StartsWith(tail, "://")
    ensures SchemeLength(scheme + tail) == |scheme|
  {
    var u := scheme + tail;
    assert u[..|scheme|] == scheme;
    assert u[|scheme|..|scheme| + 3] == "://";
    if |scheme| == 4 {
      assert u[4] == ':';
    }
  }

  /** `(?P<path>/.*)$` applied to what follows the authority: `.` stops at a
      newline, and `$` allows one final newline after the group. */
  function PathGroup(t: string): (r: Option<string>)
    ensures r.Some? ==> '\n' !in r.value && (t == r.value || t == r.value + "\n")
  {
    if '\n' !in t then Some(t)
    else if t[|t| - 1] == '\n' && '\n' !in t[..|t| - 1] then
      assert t == t[..|t| - 1] + "\n";
      Some(t[..|t| - 1])
    else None
  }

  lemma PathGroupOf(path: string, end: string)
    requires '\n' !in path
    requires end == "" || end == "\n"
    ensures PathGroup(path + end) == Some(path)
  {
    var t := path + end;
    if end == "\n" {
      assert t[|t| - 1] == '\n';
      assert t[..|t| - 1] == path;
    } else {
      assert t == path;
    }
  }

  /** `URL_RE.match(u)` for `^https?://[^/]+(?P<path>/.*)$` with `re.I`: the
      authority is everything up to the first `/` and must not be empty. */
  function MatchUrl(u: string): (r: Option<UrlParts>)
    ensures r.Some? ==> IsHttpScheme(r.value.scheme)
    ensures r.Some? ==> r.value.host != [] && '/' !in r.value.host
    ensures r.Some? ==> r.value.path != [] && r.value.path[0] == '/'
  {
    var n := SchemeLength(u);
    if n == 0 then None
    else
      var rest := u[n + 3..];
      var host := Before(rest, '/');
      if host == [] || |host| == |rest| then None
      else
        match PathGroup(rest[|host|..])
        case None => None
        case Some(path) => Some(UrlParts(u[..n], host, path))
  }

  /** The text a match covers, up to the end of the path group. */
  function Covered(m: UrlParts): string {
    m.scheme + ("://" + (m.host + m.path))
  }

  /** A match has the shape `URL_RE` describes: an `http` or `https` scheme in
      any case, a non-empty authority without `/`, and a path that starts with
      `/` and runs to the end (or to a final newline). */
  lemma MatchUrlSound(u: string)
    ensures var r := MatchUrl(u);
      r.Some? ==>
        && IsHttpScheme(r.value.scheme)
        && r.value.host != [] && '/' !in r.value.host
        && r.value.path != [] && r.value.path[0] == '/' && '\n' !in r.value.path
        && (u == Covered(r.value) || u == Covered(r.value) + "\n")
  {
    var n := SchemeLength(u);
    if n != 0 {
      var rest := u[n + 3..];
      var host := Before(rest, '/');
      if host != [] && |host| != |rest| {
        var after := rest[|host|..];
        var g := PathGroup(after);
        if g.Some? {
          var m := UrlParts(u[..n], host, g.value);
          assert MatchUrl(u) == Some(m);
          assert after[0] == '/' && after[0] != '\n';
          assert g.value != [] && g.value[0] == '/' by {
            if after != g.value {
              assert after == g.value + "\n";
            }
          }
          assert u == Covered(UrlParts(u[..n], host, after)) by {
            CoveredSplits(u, n, host);
          }
          if after != g.value {
            assert after == g.value + "\n";
            CoveredNewline(m);
          }
        }
      }
    }
  }

  /** `u` is its scheme, `://`, the authority and the rest, put back together. */
  lemma CoveredSplits(u: string, n: nat, host: string)
    requires n + 3 <= |u| && u[n..n + 3] == "://"
    requires |host| <= |u| - n - 3 && host == u[n + 3..][..|host|]
    ensures u == Covered(UrlParts(u[..n], host, u[n + 3..][|host|..]))
  {
    var rest := u[n + 3..];
    assert rest == host + rest[|host|..];
    assert u == u[..n] + u[n..n + 3] + rest;
  }

  lemma CoveredNewline(m: UrlParts)
    ensures Covered(m.(path := m.path + "\n")) == Covered(m) + "\n"
  {
  }

  /** Every URL of the shape `URL_RE` describes is matched, with exactly its
      own scheme, authority and path. */
  lemma MatchUrlComplete(scheme: string, host: string, path: string, end: string)
    requires IsHttpScheme(scheme)
    requires host != [] && '/' !in host
    requires path != [] && path[0] == '/' && '\n' !in path
    requires end == "" || end == "\n"
    ensures MatchUrl(Covered(UrlParts(scheme, host, path)) + end) == Some(UrlParts(scheme, host, path))
  {
    var u := Covered(UrlParts(scheme, host, path)) + end;
    var n := |scheme|;
    var tail := path + end;
    CoveredPieces(scheme, host, tail, end);
    SchemeLengthOf(scheme, u[n..]);
    BeforeAppend(host, tail, '/');
    assert (host + tail)[|host|..] == tail;
    PathGroupOf(path, end);
  }

  lemma CoveredPieces(scheme: string, host: string, tail: string, end: string)
    requires |end| <= |tail| && tail[|tail| - |end|..] == end
    ensures var u := Covered(UrlParts(scheme, host, tail[..|tail| - |end|])) + end;
      && u == scheme + u[|scheme|..]
      && StartsWith(u[|scheme|..], "://")
      && u[..|scheme|] == scheme
      && u[|scheme| + 3..] == host + tail
  {
    var path := tail[..|tail| - |end|];
    assert tail == path + end;
    var u := Covered(UrlParts(scheme, host, path)) + end;
    assert u == scheme + ("://" + (host + tail));
  }

  /** What one entry of `results` adds to the wordlist: its `url`, stripped,
      matched against `URL_RE`, and the path group normalised; "" for nothing. */
  function UrlToken(url: string): (t: string)
    ensures |t| <= MaxTokenLength && '/' !in t && '?' !in t && '#' !in t
  {
    match MatchUrl(Strip(url, Whitespace))
    case None => ""
    case Some(m) => NormToken(m.path)
  }

  /** The token of each `url`, in order. */
  function TokenList(urls: seq<string>): (ts: seq<string>)
    ensures |ts| == |urls|
    ensures forall k :: 0 <= k < |urls| ==> ts[k] == UrlToken(urls[k])
  {
    if urls == [] then [] else TokenList(urls[..|urls| - 1]) + [UrlToken(urls[|urls| - 1])]
  }

  /** The distinct non-empty strings of a list: what `out` collects. */
  function NonEmpty(ts: seq<string>): set<string> {
    set t | t in ts && t != ""
  }

  /** The distinct tokens of a list of `url` values. */
  function Tokens(urls: seq<string>): set<string> {
    NonEmpty(TokenList(urls))
  }

  /** One more `url` adds its token, if it has one, and nothing else. */
  lemma TokensStep(urls: seq<string>, i: nat)
    requires i < |urls|
    ensures Tokens(urls[..i + 1]) == Tokens(urls[..i]) + (if UrlToken(urls[i]) == "" then {} else {UrlToken(urls[i])})
  {
    assert urls[..i + 1][..i] == urls[..i];
    NonEmptySnoc(TokenList(urls[..i]), UrlToken(urls[i]));
  }

  lemma NonEmptySnoc(ts: seq<string>, t: string)
    ensures NonEmpty(ts + [t]) == NonEmpty(ts) + (if t == "" then {} else {t})
  {
  }

  /** Every token is a clean segment of at most `MaxTokenLength` characters. */
  lemma TokensClean(urls: seq<string>)
    ensures forall t :: t in Tokens(urls) ==> 1 <= |t| <= MaxTokenLength && '/' !in t && '?' !in t && '#' !in t
  {
    var ts := TokenList(urls);
    forall t | t in Tokens(urls) ensures 1 <= |t| <= MaxTokenLength && '/' !in t && '?' !in t && '#' !in t {
      var k :| 0 <= k < |ts| && ts[k] == t;
      assert t == UrlToken(urls[k]);
    }
  }

  /** The loop of `main()` over `results`: the set `out` of tokens. */
  method CollectTokens(urls: seq<string>) returns (out: set<string>)
    ensures out == Tokens(urls)
  {
    out := {};
    var i := 0;
    while i < |urls|
      invariant 0 <= i <= |urls|
      invariant out == Tokens(urls[..i])
    {
      TokensStep(urls, i);
      var token := UrlToken(urls[i]);
      if token != "" {
        out := out + {token};
      }
      i := i + 1;
    }
    assert urls[..i] == urls;
  }

  /** `main()`: `argv` is `sys.argv` and `urls` the `url` of each entry of
      `results` in the ffuf file (a missing `url` as ""). Returns the exit code
      and the lines printed to stdout. */
  method ExtractPaths(argv: seq<string>, urls: seq<string>) returns (code: int, lines: seq<string>)
    ensures |argv| < 2 ==> code == 2 && lines == []
    ensures |argv| >= 2 ==> code == 0 && StrictlySorted(lines) && Elems(lines) == Tokens(urls)
    ensures forall t :: t in lines ==> 1 <= |t| <= MaxTokenLength && '/' !in t && '?' !in t && '#' !in t
  {
    if |argv| < 2 {
      return 2, [];
    }
    var out := CollectTokens(urls);
    TokensClean(urls);
    lines := SortedList(out);
    code := 0;
  }

  /** A URL `scheme://host/seg...` with no surrounding whitespace gives its
      first path segment `seg`, whatever follows it, when that segment is clean
      and short enough. */
  lemma UrlTokenFirstSegment(scheme: string, host: string, seg: string, rest: string)
    requires IsHttpScheme(scheme)
    requires host != [] && '/' !in host
    requires CleanSegment(seg) && '\n' !in seg && '\n' !in rest
    requires rest == [] || rest[0] == '/' || rest[0] == '?' || rest[0] == '#'
    requires rest == [] || !IsSpace(rest[|rest| - 1])
    ensures UrlToken(Covered(UrlParts(scheme, host, "/" + seg + rest)))
         == if |seg| <= MaxTokenLength then seg else ""
  {
    var path := "/" + seg + rest;
    var url := Covered(UrlParts(scheme, host, path));
    assert url == scheme + ("://" + (host + path));
    assert url[0] == scheme[0];
    assert url[|url| - 1] == path[|path| - 1];
    assert path[|path| - 1] == if rest == [] then seg[|seg| - 1] else rest[|rest| - 1];
    StripKeeps(url, Whitespace);
    MatchUrlComplete(scheme, host, path, "");
    assert url + "" == url;
    NormTokenFirstSegment(seg, rest);
  }

}
