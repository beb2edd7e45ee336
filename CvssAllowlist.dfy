/**
  scripts/nuclei/generate_cvss10_allowlist.py: selects the nuclei templates
  under `http/cves/` whose metadata carries a CVSS score of 10 and writes their
  paths, sorted and without duplicates, one per line.
 */
module CvssAllowlist {

  import opened Optional
  import opened PyText
  import opened PyOrder

  /** The path filters of the loop in `main`: under `http/cves/`, no
      `headless` directory, and none of the excluded top-level trees. */
  predicate PathSelected(rel: string) {
    && StartsWith(rel, "http/cves/")
    && !(Contains(rel, "/headless/") || StartsWith(rel, "headless/"))
    && !(StartsWith(rel, "code/") || StartsWith(rel, "file/")
         || StartsWith(rel, "network/") || StartsWith(rel, "ssl/"))
  }

  /** A path under `http/cves/` starts with none of the excluded prefixes, so
      the prefix tests after the first never reject anything. */
  lemma ExcludedPrefixesUnreachable(rel: string)
    requires StartsWith(rel, "http/cves/")
    ensures !StartsWith(rel, "headless/")
    ensures !StartsWith(rel, "code/") && !StartsWith(rel, "file/")
    ensures !StartsWith(rel, "network/") && !StartsWith(rel, "ssl/")
  {
    PrefixesClash(rel, "http/cves/", "headless/", 1);
    PrefixesClash(rel, "http/cves/", "code/", 0);
    PrefixesClash(rel, "http/cves/", "file/", 0);
    PrefixesClash(rel, "http/cves/", "network/", 0);
    PrefixesClash(rel, "http/cves/", "ssl/", 0);
  }

  /** What the path filters amount to. */
  lemma PathSelectedIff(rel: string)
    ensures PathSelected(rel) <==> StartsWith(rel, "http/cves/") && !Contains(rel, "/headless/")
  {
    if StartsWith(rel, "http/cves/") {
      ExcludedPrefixesUnreachable(rel);
    }
  }

  /** The key of `CVSS_RE`, in lower case; `re.IGNORECASE` widens it. */
  const Key := "cvss-score"

  /** `t` is the key in some mix of cases. */
  predicate IsKey(t: string) {
    MatchesIgnoringCase(t, Key)
  }

  /** `^` under `re.MULTILINE`: the start of the text or just after a newline. */
  predicate LineStart(s: string, i: nat)
    requires i <= |s|
  {
    i == 0 || s[i - 1] == '\n'
  }

  /** `$` under `re.MULTILINE`: the end of the text or just before a newline. */
  predicate LineEnd(s: string, i: nat)
    requires i <= |s|
  {
    i == |s| || s[i] == '\n'
  }

  /** `s[i..j]` is matched by `\s*`; newlines included. */
  predicate SpacesBetween(s: string, i: nat, j: nat)
    requires i <= j <= |s|
  {
    forall k :: i <= k < j ==> IsSpace(s[k])
  }

  /** The group `10(?:\.0+)?`. */
  predicate ScoreValue(v: string) {
    v == "10" || (|v| >= 4 && v[..3] == "10." && forall k :: 3 <= k < |v| ==> v[k] == '0')
  }

  /** `\s*$` matches `s[e..f]`. */
  predicate TailAt(s: string, e: nat, f: nat) {
    e <= f <= |s| && SpacesBetween(s, e, f) && LineEnd(s, f)
  }

  /** `\s*(10(?:\.0+)?)\s*$` matches `s[i..f]`, the value being `s[d..e]`. */
  predicate ValueAt(s: string, i: nat, d: nat, e: nat, f: nat) {
    i <= d <= e <= |s| && SpacesBetween(s, i, d) && ScoreValue(s[d..e]) && TailAt(s, e, f)
  }

  /** The key at `b`, `\s*` up to the colon at `c`, then the value part. */
  predicate KeyAt(s: string, b: nat, c: nat, d: nat, e: nat, f: nat) {
    && b + |Key| <= c < |s|
    && IsKey(s[b..b + |Key|])
    && SpacesBetween(s, b + |Key|, c)
    && s[c] == ':'
    && ValueAt(s, c + 1, d, e, f)
  }

  /** `CVSS_RE` matches `s[a..f]`: `^` at `a`, `\s*` up to the key at `b`,
      then the key, colon and value parts. */
  predicate MatchAt(s: string, a: nat, b: nat, c: nat, d: nat, e: nat, f: nat) {
    a <= b <= |s| && LineStart(s, a) && SpacesBetween(s, a, b) && KeyAt(s, b, c, d, e, f)
  }

  /** `CVSS_RE.search(s)` succeeds: the regular language of the pattern,
      searched at every position. */
  ghost predicate CvssSpec(s: string) {
    exists a: nat, b: nat, c: nat, d: nat, e: nat, f: nat :: MatchAt(s, a, b, c, d, e, f)
  }

  /** The characters a run of `\s*` or `0+` takes. */
  datatype Class = Space | Zero

  predicate InClass(c: char, k: Class) {
    match k
    case Space => IsSpace(c)
    case Zero => c == '0'
  }

  /** Every character of `s[i..j]` is of class `k`. */
  predicate AllIn(s: string, i: nat, j: nat, k: Class)
    requires i <= j <= |s|
  {
    forall m :: i <= m < j ==> InClass(s[m], k)
  }

  /** Where the longest run of class `k` starting at `i` ends. */
  function Run(s: string, i: nat, k: Class): (j: nat)
    requires i <= |s|
    ensures i <= j <= |s|
    ensures AllIn(s, i, j, k)
    ensures j == |s| || !InClass(s[j], k)
    decreases |s| - i
  {
    if i < |s| && InClass(s[i], k) then Run(s, i + 1, k) else i
  }

  /** A run of class `k` over `s[i..j]` that cannot go on ends at `j`. */
  lemma {:induction false} RunStops(s: string, i: nat, j: nat, k: Class)
    requires i <= j <= |s|
    requires forall m :: i <= m < j ==> InClass(s[m], k)
    requires j == |s| || !InClass(s[j], k)
    ensures Run(s, i, k) == j
    decreases j - i
  {
    if i < j {
      RunStops(s, i + 1, j, k);
    }
  }

  /** The longest run covers every shorter one. */
  lemma {:induction false} RunCovers(s: string, i: nat, j: nat, k: Class)
    requires i <= j <= |s|
    requires forall m :: i <= m < j ==> InClass(s[m], k)
    ensures Run(s, i, k) >= j
    decreases j - i
  {
    if i < j {
      RunCovers(s, i + 1, j, k);
    }
  }

  /** Where the value group starting with `10` at `d` ends: after `10` when no
      `.` follows, after the run of zeros when one does; none when the `.` has
      no zero after it. */
  function ValueEnd(s: string, d: nat): (e: Option<nat>)
    requires d + 2 <= |s| && s[d..d + 2] == "10"
    ensures e.Some? ==> d + 2 <= e.value <= |s| && ScoreValue(s[d..e.value])
  {
    if d + 2 < |s| && s[d + 2] == '.' then
      var z := Run(s, d + 3, Zero);
      if z == d + 3 then None
      else
        assert s[d..z][..3] == "10.";
        Some(z)
    else Some(d + 2)
  }

  /** `\s*$` from `e`, as a backtracking matcher settles it: the trailing
      run must hold a newline or reach the end of the text. */
  predicate TailFrom(s: string, e: nat)
    requires e <= |s|
  {
    var g := Run(s, e, Space);
    g == |s| || '\n' in s[e..g]
  }

  /** The value part from `i`: the `\s*` before the digits takes the whole
      run, and the zeros are taken to the end of their run. */
  predicate ValueFrom(s: string, i: nat)
    requires i <= |s|
  {
    var d := Run(s, i, Space);
    d + 2 <= |s| && s[d..d + 2] == "10" &&
    match ValueEnd(s, d)
    case None => false
    case Some(e) => TailFrom(s, e)
  }

  /** The key part from `b`. */
  predicate KeyFrom(s: string, b: nat)
    requires b <= |s|
  {
    b + |Key| <= |s| && IsKey(s[b..b + |Key|]) &&
    var c := Run(s, b + |Key|, Space);
    c < |s| && s[c] == ':' && ValueFrom(s, c + 1)
  }

  /** The pattern tried at `a`: the `\s*` before the key takes the whole run. */
  predicate MatchFrom(s: string, a: nat)
    requires a <= |s|
  {
    KeyFrom(s, Run(s, a, Space))
  }

  /** `CVSS_RE.search` from position `a` on. */
  predicate SearchFrom(s: string, a: nat)
    requires a <= |s|
    decreases |s| - a
  {
    (LineStart(s, a) && MatchFrom(s, a)) || (a < |s| && SearchFrom(s, a + 1))
  }

  /** `CVSS_RE.search(s)` as the script evaluates it. */
  predicate CvssSearch(s: string) {
    SearchFrom(s, 0)
  }

  lemma TailFromSound(s: string, e: nat) returns (f: nat)
    requires e <= |s| && TailFrom(s, e)
    ensures TailAt(s, e, f)
  {
    var g := Run(s, e, Space);
    if g == |s| {
      f := g;
    } else {
      assert '\n' in s[e..g];
      var m :| 0 <= m < g - e && s[e..g][m] == '\n';
      f := e + m;
      assert s[f] == '\n';
    }
  }

  lemma TailFromComplete(s: string, e: nat, f: nat)
    requires TailAt(s, e, f)
    ensures TailFrom(s, e)
  {
    RunCovers(s, e, f, Space);
    var g := Run(s, e, Space);
    if f < |s| {
      assert s[f] == '\n';
      assert s[e..g][f - e] == '\n';
    }
  }

  lemma ValueFromSound(s: string, i: nat) returns (d: nat, e: nat, f: nat)
    requires i <= |s| && ValueFrom(s, i)
    ensures ValueAt(s, i, d, e, f)
  {
    d := Run(s, i, Space);
    e := ValueEnd(s, d).value;
    assert TailFrom(s, e);
    f := TailFromSound(s, e);
  }

  lemma ValueFromComplete(s: string, i: nat, d: nat, e: nat, f: nat)
    requires ValueAt(s, i, d, e, f)
    ensures ValueFrom(s, i)
  {
    assert s[d] == s[d..e][0] == '1';
    RunStops(s, i, d, Space);
    assert s[d..d + 2] == s[d..e][..2];
    ValueEndOf(s, d, e, f);
    TailFromComplete(s, e, f);
  }

  lemma KeyFromSound(s: string, b: nat) returns (c: nat, d: nat, e: nat, f: nat)
    requires b <= |s| && KeyFrom(s, b)
    ensures KeyAt(s, b, c, d, e, f)
  {
    c := Run(s, b + |Key|, Space);
    d, e, f := ValueFromSound(s, c + 1);
  }

  lemma KeyFromComplete(s: string, b: nat, c: nat, d: nat, e: nat, f: nat)
    requires KeyAt(s, b, c, d, e, f)
    ensures KeyFrom(s, b)
  {
    SpacesToColon(s, b + |Key|, c);
    ValueFromComplete(s, c + 1, d, e, f);
    KeyFromParts(s, b, c);
  }

  /** The `\s*` before the colon takes the whole run of spaces up to it. */
  lemma SpacesToColon(s: string, i: nat, c: nat)
    requires i <= c < |s| && SpacesBetween(s, i, c) && s[c] == ':'
    ensures Run(s, i, Space) == c
  {
    RunStops(s, i, c, Space);
  }

  lemma KeyFromParts(s: string, b: nat, c: nat)
    requires b + |Key| <= c < |s| && IsKey(s[b..b + |Key|]) && s[c] == ':'
    requires Run(s, b + |Key|, Space) == c && ValueFrom(s, c + 1)
    ensures KeyFrom(s, b)
  {
  }

  lemma MatchFromSound(s: string, a: nat) returns (b: nat, c: nat, d: nat, e: nat, f: nat)
    requires a <= |s| && LineStart(s, a) && MatchFrom(s, a)
    ensures MatchAt(s, a, b, c, d, e, f)
  {
    b := Run(s, a, Space);
    c, d, e, f := KeyFromSound(s, b);
  }

  lemma MatchFromComplete(s: string, a: nat, b: nat, c: nat, d: nat, e: nat, f: nat)
    requires MatchAt(s, a, b, c, d, e, f)
    ensures MatchFrom(s, a)
  {
    assert s[b] == s[b..b + |Key|][0];
    RunStops(s, a, b, Space);
    KeyFromComplete(s, b, c, d, e, f);
  }

  /** The value group cannot stop early: what follows it is whitespace or a
      line end, neither of which is `.` or `0`. */
  lemma ValueEndOf(s: string, d: nat, e: nat, f: nat)
    requires d + 2 <= e <= |s|
    requires s[d..d + 2] == "10"
    requires ScoreValue(s[d..e]) && TailAt(s, e, f)
    ensures ValueEnd(s, d) == Some(e)
  {
    var v := s[d..e];
    assert e < |s| ==> IsSpace(s[e]);
    if v != "10" {
      assert s[d + 2] == v[2] == '.';
      forall m | d + 3 <= m < e ensures s[m] == '0' {
        assert s[m] == v[m - d];
      }
      RunStops(s, d + 3, e, Zero);
    }
  }

  /** A successful scan from `a` has found a match starting at or after `a`. */
  lemma {:induction false} SearchFromSound(s: string, a: nat) returns (a': nat, b: nat, c: nat, d: nat, e: nat, f: nat)
    requires a <= |s| && SearchFrom(s, a)
    ensures a <= a' && MatchAt(s, a', b, c, d, e, f)
    decreases |s| - a
  {
    if LineStart(s, a) && MatchFrom(s, a) {
      a' := a;
      b, c, d, e, f := MatchFromSound(s, a);
    } else {
      a', b, c, d, e, f := SearchFromSound(s, a + 1);
    }
  }

  /** The scan from `a` reaches a position `a'` at which the pattern
      matches. */
  lemma {:induction false} SearchReaches(s: string, a: nat, a': nat)
    requires a <= a' <= |s| && LineStart(s, a') && MatchFrom(s, a')
    ensures SearchFrom(s, a)
    decreases a' - a
  {
    if a < a' {
      SearchReaches(s, a + 1, a');
    }
  }

  /** The scan from `a` finds every match starting at or after `a`. */
  lemma SearchFromComplete(s: string, a: nat, a': nat, b: nat, c: nat, d: nat, e: nat, f: nat)
    requires a <= a' && MatchAt(s, a', b, c, d, e, f)
    ensures SearchFrom(s, a)
  {
    MatchFromComplete(s, a', b, c, d, e, f);
    SearchReaches(s, a, a');
  }

  /** The scan agrees with the pattern's language on every text. */
  lemma CvssSearchCorrect(s: string)
    ensures CvssSearch(s) <==> CvssSpec(s)
  {
    if CvssSearch(s) {
      var a, b, c, d, e, f := SearchFromSound(s, 0);
      assert MatchAt(s, a, b, c, d, e, f);
    }
    if CvssSpec(s) {
      var a: nat, b: nat, c: nat, d: nat, e: nat, f: nat :| MatchAt(s, a, b, c, d, e, f);
      SearchFromComplete(s, 0, a, b, c, d, e, f);
    }
  }

  /** A one-line text `cvss-score: v`, `v` without whitespace, is matched
      exactly when `v` is a score of 10. */
  lemma OneLineScore(v: string)
    requires forall i :: 0 <= i < |v| ==> !IsSpace(v[i])
    ensures CvssSpec("cvss-score: " + v) <==> ScoreValue(v)
  {
    var s := "cvss-score: " + v;
    assert s[..12] == "cvss-score: " && s[12..] == v;
    if ScoreValue(v) {
      assert IsKey(s[0..10]);
      assert MatchAt(s, 0, 0, 10, 12, |s|, |s|);
    }
    if CvssSpec(s) {
      var a: nat, b: nat, c: nat, d: nat, e: nat, f: nat :| MatchAt(s, a, b, c, d, e, f);
      OneLineScorePositions(v, a, b, c, d, e, f);
    }
  }

  /** Where a match in `cvss-score: v` must sit. */
  lemma OneLineScorePositions(v: string, a: nat, b: nat, c: nat, d: nat, e: nat, f: nat)
    requires forall i :: 0 <= i < |v| ==> !IsSpace(v[i])
    requires MatchAt("cvss-score: " + v, a, b, c, d, e, f)
    ensures ScoreValue(v)
  {
    var s := "cvss-score: " + v;
    forall i | 12 <= i < |s| ensures s[i] == v[i - 12] && !IsSpace(s[i]) {
    }
    assert a == 0;
    assert !IsSpace(s[0]);
    assert b == 0;
    assert !IsSpace(s[10]);
    assert c == 10;
    assert s[d..e][0] == '1';
    assert d < |s| ==> s[d] == '1';
    assert 12 < |s| ==> !IsSpace(s[12]);
    assert d == 12;
    assert f == |s|;
    assert !IsSpace(s[|s| - 1]);
    assert e == |s|;
    assert s[d..e] == v;
  }

  /** `10`, `10.0` and `10.000` are scores of 10; `10.`, `9.8`, `10.5` and
      `100` are not. */
  lemma ScoreValueExamples()
    ensures ScoreValue("10") && ScoreValue("10.0") && ScoreValue("10.000")
    ensures !ScoreValue("10.") && !ScoreValue("9.8") && !ScoreValue("10.5") && !ScoreValue("100")
  {
    assert "10.5"[3] == '5';
  }

  /** One-line texts the pattern rejects: the value `10.`, `9.8`, `10.5` or `100`. */
  lemma CvssRejectsOtherScores()
    ensures !CvssSpec("cvss-score: 10.")
    ensures !CvssSpec("cvss-score: 9.8")
    ensures !CvssSpec("cvss-score: 10.5")
    ensures !CvssSpec("cvss-score: 100")
  {
    ScoreValueExamples();
    OneLineScore("10.");
    assert "cvss-score: " + "10." == "cvss-score: 10.";
    OneLineScore("9.8");
    assert "cvss-score: " + "9.8" == "cvss-score: 9.8";
    OneLineScore("10.5");
    assert "cvss-score: " + "10.5" == "cvss-score: 10.5";
    OneLineScore("100");
    assert "cvss-score: " + "100" == "cvss-score: 100";
  }

  /** The key in mixed case, with blanks on both sides of the colon. */
  lemma CvssAcceptsAnyCase(s: string)
    requires s == "CVSS-Score : 10.0"
    ensures CvssSpec(s)
  {
    assert IsKey(s[0..10]);
    assert s[13..17] == "10.0" && ScoreValue(s[13..17]);
    assert ValueAt(s, 12, 13, 17, 17);
    assert MatchAt(s, 0, 0, 11, 13, 17, 17);
  }

  /** A match on a later line of the text. */
  lemma CvssAcceptsLaterLine(s: string)
    requires s == "id: x\ncvss-score: 10.000"
    ensures CvssSpec(s)
  {
    assert IsKey(s[6..16]);
    assert s[18..24] == "10.000" && ScoreValue(s[18..24]);
    assert ValueAt(s, 17, 18, 24, 24);
    assert MatchAt(s, 6, 6, 16, 18, 24, 24);
  }

  /** `\s` matches a newline, so the key and the value may sit on different
      lines. */
  lemma CvssAcceptsAcrossLineBreak(s: string)
    requires s == "cvss-score:\n10"
    ensures CvssSpec(s)
  {
    assert IsKey(s[0..10]);
    assert MatchAt(s, 0, 0, 10, 12, 14, 14);
  }

  /** A template found by the walk: its path relative to the root, in POSIX
      form, and its text, or `None` when reading it raised. */
  datatype Template = Template(rel: string, text: Option<string>)

  /** What a run ends with: the root is missing (`SystemExit` with a
      message), or the allowlist was written and its size printed. */
  datatype Outcome = RootNotFound | Written(content: string, count: nat)

  /** A template the loop keeps. */
  ghost predicate Keeps(t: Template) {
    PathSelected(t.rel) && t.text.Some? && CvssSpec(t.text.value)
  }

  /** The distinct paths the loop keeps. */
  ghost function Chosen(ts: seq<Template>): set<string> {
    set t | t in ts && Keeps(t) :: t.rel
  }

  lemma ChosenStep(ts: seq<Template>, i: nat)
    requires i < |ts|
    ensures Chosen(ts[..i + 1]) == Chosen(ts[..i]) + (if Keeps(ts[i]) then {ts[i].rel} else {})
  {
    assert ts[..i + 1] == ts[..i] + [ts[i]];
  }

  /** The chosen paths depend on which templates there are, not on the order
      `rglob` yields them in. */
  lemma ChosenOrderFree(ts: seq<Template>, us: seq<Template>)
    requires multiset(ts) == multiset(us)
    ensures Chosen(ts) == Chosen(us)
  {
    forall t ensures t in ts <==> t in us {
      assert t in ts <==> t in multiset(ts);
      assert t in us <==> t in multiset(us);
    }
  }

  /** `"\n".join(selected) + ("\n" if selected else "")`. */
  function Serialise(xs: seq<string>): (text: string)
    ensures text == "" <==> xs == []
    ensures xs != [] ==> text[|text| - 1] == '\n'
  {
    if xs == [] then "" else Join(xs, '\n') + "\n"
  }

  /** Reading the written file back: its lines, without the final newline. */
  function Lines(text: string): seq<string> {
    if text == "" then [] else Split(text[..|text| - 1], '\n')
  }

  /** Reading the allowlist back gives the selected paths, when no path holds
      a newline. */
  lemma SerialiseLines(xs: seq<string>)
    requires forall k :: 0 <= k < |xs| ==> '\n' !in xs[k]
    ensures Lines(Serialise(xs)) == xs
  {
    if xs != [] {
      var text := Serialise(xs);
      assert text[..|text| - 1] == Join(xs, '\n');
      SplitJoin(xs, '\n');
    }
  }

  /** The printed `count` is the number of lines of the file, when no path
      holds a newline. */
  lemma SerialiseCount(xs: seq<string>)
    requires forall k :: 0 <= k < |xs| ==> '\n' !in xs[k]
    ensures Count(Serialise(xs), '\n') == |xs|
  {
    if xs != [] {
      CountJoin(xs, '\n');
      CountAppend(Join(xs, '\n'), "\n", '\n');
      assert Count("\n", '\n') == 1 by {
        assert "\n"[1..] == "";
      }
    }
  }

  /** `main()`: `rootExists` is `root.exists()` and `templates` what
      `root.rglob("*.yaml")` yields, in its order. */
  method GenerateAllowlist(rootExists: bool, templates: seq<Template>) returns (o: Outcome)
    ensures !rootExists ==> o == RootNotFound
    ensures rootExists ==> exists xs :: StrictlySorted(xs) && Elems(xs) == Chosen(templates) && o == Written(Serialise(xs), |xs|)
  {
    if !rootExists {
      return RootNotFound;
    }
    var selected: seq<string> := [];
    var i := 0;
    while i < |templates|
      invariant 0 <= i <= |templates|
      invariant Elems(selected) == Chosen(templates[..i])
    {
      ChosenStep(templates, i);
      var t := templates[i];
      i := i + 1;
      if !PathSelected(t.rel) {
        continue;
      }
      if t.text.None? {
        continue;
      }
      CvssSearchCorrect(t.text.value);
      if !CvssSearch(t.text.value) {
        continue;
      }
      selected := selected + [t.rel];
    }
    assert templates[..i] == templates;
    var xs := SortedList(Elems(selected));
    o := Written(Serialise(xs), |xs|);
  }

  /** Two walks over the same templates, in any order, write the same file
      and print the same count. */
  lemma AllowlistOrderFree(ts: seq<Template>, us: seq<Template>, xs: seq<string>, ys: seq<string>)
    requires multiset(ts) == multiset(us)
    requires StrictlySorted(xs) && Elems(xs) == Chosen(ts)
    requires StrictlySorted(ys) && Elems(ys) == Chosen(us)
    ensures Written(Serialise(xs), |xs|) == Written(Serialise(ys), |ys|)
  {
    ChosenOrderFree(ts, us);
    SortedUnique(xs, ys);
  }

}
