/**
  The few Python `str` operations the three scripts rely on, over `string`
  (a sequence of Unicode code points, as a Python `str` is).
 */
module PyText {

  /** `c.isspace()`: the code points Python treats as whitespace. `str.strip()`
      removes exactly these, and the `\s` class of `re` matches exactly these. */
  predicate IsSpace(c: char) {
    || c == ' '
    || '\t' <= c <= '\r'                 // \t \n \v \f \r
    || '\U{1C}' <= c <= '\U{1F}'         // the four ASCII separators
    || c == '\U{85}' || c == '\U{A0}' || c == '\U{1680}'
    || '\U{2000}' <= c <= '\U{200A}'
    || c == '\U{2028}' || c == '\U{2029}' || c == '\U{202F}'
    || c == '\U{205F}' || c == '\U{3000}'
  }

  /** The character sets the scripts strip: `str.strip()` and `str.strip("/")`. */
  datatype Chars = Whitespace | Slashes

  predicate In(c: char, k: Chars) {
    match k
    case Whitespace => IsSpace(c)
    case Slashes => c == '/'
  }

  predicate AllSpace(s: string) {
    forall i :: 0 <= i < |s| ==> IsSpace(s[i])
  }

  /** `s.lstrip(chars)`, `drop` naming `chars`: the
      longest prefix of dropped characters is removed. */
  function TrimStart(s: string, drop: Chars): (r: string)
    ensures |r| <= |s| && r == s[|s| - |r|..]
    ensures forall i :: 0 <= i < |s| - |r| ==> In(s[i], drop)
    ensures r == [] || !In(r[0], drop)
    decreases |s|
  {
    if s != [] && In(s[0], drop) then TrimStart(s[1..], drop) else s
  }

  /** `s.rstrip(chars)`: the longest suffix of dropped characters is removed. */
  function TrimEnd(s: string, drop: Chars): (r: string)
    ensures |r| <= |s| && r == s[..|r|]
    ensures forall i :: |r| <= i < |s| ==> In(s[i], drop)
    ensures r == [] || !In(r[|r| - 1], drop)
    decreases |s|
  {
    if s != [] && In(s[|s| - 1], drop) then TrimEnd(s[..|s| - 1], drop) else s
  }

  /** Trimming the end of `a + b` stops inside `b` when `a` ends with a kept
      character. */
  lemma {:induction false} TrimEndAfterKept(a: string, b: string, drop: Chars)
    requires a != [] && !In(a[|a| - 1], drop)
    ensures TrimEnd(a + b, drop) == a + TrimEnd(b, drop)
    decreases |b|
  {
    var s := a + b;
    if b == [] {
      assert s == a;
    } else if In(b[|b| - 1], drop) {
      var b' := b[..|b| - 1];
      assert s[|s| - 1] == b[|b| - 1];
      assert s[..|s| - 1] == a + b';
      assert TrimEnd(s, drop) == TrimEnd(a + b', drop);
      assert TrimEnd(b, drop) == TrimEnd(b', drop);
      TrimEndAfterKept(a, b', drop);
    } else {
      assert s[|s| - 1] == b[|b| - 1];
    }
  }

  /** Trimming the start of `a + b` removes exactly `a` when all of `a` is
      dropped and `b` starts with a kept character. */
  lemma {:induction false} TrimStartSkips(a: string, b: string, drop: Chars)
    requires forall i :: 0 <= i < |a| ==> In(a[i], drop)
    requires b == [] || !In(b[0], drop)
    ensures TrimStart(a + b, drop) == b
    decreases |a|
  {
    if a == [] {
      assert a + b == b;
    } else {
      assert (a + b)[1..] == a[1..] + b;
      TrimStartSkips(a[1..], b, drop);
    }
  }

  /** How many leading characters `s.strip(chars)` removes. */
  function StripStart(s: string, drop: Chars): nat {
    |s| - |TrimStart(s, drop)|
  }

  /** `s.strip(chars)`; `Strip(s, Whitespace)` is `s.strip()`: the slice of `s`
      left once dropped characters are removed from both ends. */
  function Strip(s: string, drop: Chars): (r: string)
    ensures r == [] || (!In(r[0], drop) && !In(r[|r| - 1], drop))
    ensures StripStart(s, drop) + |r| <= |s|
    ensures r == s[StripStart(s, drop)..StripStart(s, drop) + |r|]
    ensures forall i :: 0 <= i < StripStart(s, drop) ==> In(s[i], drop)
    ensures forall i :: StripStart(s, drop) + |r| <= i < |s| ==> In(s[i], drop)
  {
    var t := TrimStart(s, drop);
    var r := TrimEnd(t, drop);
    SliceOfSlice(s, t, r, |s| - |t|);
    r
  }

  /** A prefix `r` of the tail `t == s[a..]` is the slice `s[a..a + |r|]`. */
  lemma SliceOfSlice(s: string, t: string, r: string, a: nat)
    requires a <= |s| && t == s[a..] && |r| <= |t| && r == t[..|r|]
    ensures a + |r| <= |s| && r == s[a..a + |r|]
    ensures forall i :: a <= i < |s| ==> s[i] == t[i - a]
  {
  }

  /** Stripping keeps characters of `s` only. */
  lemma StripSubset(s: string, drop: Chars)
    ensures forall c :: c in Strip(s, drop) ==> c in s
  {
    var r := Strip(s, drop);
    var a := StripStart(s, drop);
    forall c | c in r ensures c in s {
      var k :| 0 <= k < |r| && r[k] == c;
      assert s[a + k] == c;
    }
  }

  /** Stripping leaves nothing exactly when every character is dropped. */
  lemma StripEmpty(s: string, drop: Chars)
    ensures Strip(s, drop) == [] <==> forall i :: 0 <= i < |s| ==> In(s[i], drop)
  {
    var r := Strip(s, drop);
    if r != [] {
      assert s[StripStart(s, drop)] == r[0];
    }
  }

  /** Stripping a string that starts and ends with kept characters changes nothing. */
  lemma StripKeeps(s: string, drop: Chars)
    requires s == [] || (!In(s[0], drop) && !In(s[|s| - 1], drop))
    ensures Strip(s, drop) == s
  {
  }

  /** `s.split(c, 1)[0]`: the part of `s` before the first `c`, or all of `s`. */
  function Before(s: string, c: char): (r: string)
    ensures c !in r
    ensures |r| <= |s| && r == s[..|r|]
    ensures |r| == |s| || s[|r|] == c
  {
    if s == [] || s[0] == c then []
    else
      var t := Before(s[1..], c);
      assert s[..|t| + 1] == [s[0]] + s[1..][..|t|];
      [s[0]] + t
  }

  /** Cutting a string without `c` at `c` keeps all of it. */
  lemma BeforeAbsent(a: string, c: char)
    requires c !in a
    ensures Before(a, c) == a
  {
  }

  /** The text before the first separator is the part the separator was put after. */
  lemma {:induction false} BeforeSeparator(a: string, c: char, b: string)
    requires c !in a
    ensures Before(a + [c] + b, c) == a
  {
    if a != [] {
      assert (a + [c] + b)[1..] == a[1..] + [c] + b;
      BeforeSeparator(a[1..], c, b);
      assert a == [a[0]] + a[1..];
    }
  }

  /** Cutting at `c` passes over a part that holds no `c`. */
  lemma {:induction false} BeforeAppend(a: string, b: string, c: char)
    requires c !in a
    ensures Before(a + b, c) == a + Before(b, c)
  {
    if a == [] {
      assert a + b == b;
    } else {
      var s := a + b;
      assert s[0] == a[0] && s[0] != c;
      assert s[1..] == a[1..] + b;
      BeforeAppend(a[1..], b, c);
      assert Before(s, c) == [a[0]] + Before(s[1..], c);
      assert [a[0]] + (a[1..] + Before(b, c)) == a + Before(b, c);
    }
  }

  /** `sep.join(xs)` for a one-character separator. */
  function Join(xs: seq<string>, sep: char): string {
    if |xs| == 0 then ""
    else if |xs| == 1 then xs[0]
    else xs[0] + [sep] + Join(xs[1..], sep)
  }

  /** `s.split(sep)` for a one-character separator; never empty. */
  function Split(s: string, sep: char): (r: seq<string>)
    ensures |r| >= 1
    decreases |s|
  {
    var head := Before(s, sep);
    if |head| == |s| then [s] else [head] + Split(s[|head| + 1..], sep)
  }

  /** No piece holds the separator, and joining the pieces gives `s` back. */
  lemma {:induction false} JoinSplit(s: string, sep: char)
    ensures forall k :: 0 <= k < |Split(s, sep)| ==> sep !in Split(s, sep)[k]
    ensures Join(Split(s, sep), sep) == s
    decreases |s|
  {
    var head := Before(s, sep);
    if |head| < |s| {
      var tail := s[|head| + 1..];
      JoinSplit(tail, sep);
      var r := Split(s, sep);
      assert r == [head] + Split(tail, sep);
      assert r[1..] == Split(tail, sep);
      assert s == head + [sep] + tail;
    }
  }

  /** The piece before the first separator comes first; the rest is split on. */
  lemma SplitCons(a: string, sep: char, b: string)
    requires sep !in a
    ensures Split(a + [sep] + b, sep) == [a] + Split(b, sep)
  {
    var s := a + [sep] + b;
    BeforeSeparator(a, sep, b);
    assert s[|a| + 1..] == b;
  }

  /** Splitting a joined list gives the list back, when no item holds the separator. */
  lemma {:induction false} SplitJoin(xs: seq<string>, sep: char)
    requires |xs| >= 1
    requires forall k :: 0 <= k < |xs| ==> sep !in xs[k]
    ensures Split(Join(xs, sep), sep) == xs
  {
    var s := Join(xs, sep);
    if |xs| == 1 {
      assert Before(s, sep) == s;
    } else {
      var tail := Join(xs[1..], sep);
      assert s == xs[0] + [sep] + tail;
      BeforeSeparator(xs[0], sep, tail);
      assert s[|xs[0]| + 1..] == tail;
      SplitJoin(xs[1..], sep);
      assert xs == [xs[0]] + xs[1..];
    }
  }

  /** How many times `c` occurs in `s` (`s.count(c)`). */
  function Count(s: string, c: char): nat {
    if s == [] then 0 else (if s[0] == c then 1 else 0) + Count(s[1..], c)
  }

  lemma {:induction false} CountAppend(a: string, b: string, c: char)
    ensures Count(a + b, c) == Count(a, c) + Count(b, c)
  {
    if a != [] {
      assert (a + b)[1..] == a[1..] + b;
      CountAppend(a[1..], b, c);
    } else {
      assert a + b == b;
    }
  }

  lemma {:induction false} CountAbsent(s: string, c: char)
    requires c !in s
    ensures Count(s, c) == 0
  {
    if s != [] {
      CountAbsent(s[1..], c);
    }
  }

  /** Joining `n` items none of which holds the separator puts exactly `n - 1`
      separators in the text. */
  lemma {:induction false} CountJoin(xs: seq<string>, sep: char)
    requires |xs| >= 1
    requires forall k :: 0 <= k < |xs| ==> sep !in xs[k]
    ensures Count(Join(xs, sep), sep) == |xs| - 1
  {
    CountAbsent(xs[0], sep);
    if |xs| > 1 {
      CountJoin(xs[1..], sep);
      CountAppend(xs[0] + [sep], Join(xs[1..], sep), sep);
      CountAppend(xs[0], [sep], sep);
      assert Count([sep], sep) == 1 by {
        assert [sep][1..] == [];
      }
    }
  }

  /** `s.startswith(p)`. */
  predicate StartsWith(s: string, p: string) {
    |p| <= |s| && s[..|p|] == p
  }

  /** `sub in s`. */
  predicate Contains(s: string, sub: string) {
    exists i :: 0 <= i <= |s| - |sub| && OccursAt(s, sub, i)
  }

  predicate OccursAt(s: string, sub: string, i: nat)
    requires i + |sub| <= |s|
  {
    s[i..i + |sub|] == sub
  }

  /** A string that starts with one prefix cannot start with another that
      differs from it somewhere within both. */
  lemma PrefixesClash(s: string, p: string, q: string, k: nat)
    requires StartsWith(s, p)
    requires k < |p| && k < |q| && p[k] != q[k]
    ensures !StartsWith(s, q)
  {
    assert s[k] == p[k];
  }

  /** `c.lower()` for ASCII letters; every other character is left as it is. */
  function LowerChar(c: char): (r: char)
    ensures 'A' <= c <= 'Z' ==> 'a' <= r <= 'z'
    ensures !('A' <= c <= 'Z') ==> r == c
  {
    if 'A' <= c <= 'Z' then (c as int - 'A' as int + 'a' as int) as char else c
  }

  function Lower(s: string): (r: string)
    ensures |r| == |s|
    ensures forall i :: 0 <= i < |s| ==> r[i] == LowerChar(s[i])
  {
    if s == [] then [] else [LowerChar(s[0])] + Lower(s[1..])
  }

  /** Whether `c` matches the lower-case pattern letter `p` under `re.IGNORECASE`:
      either case of an ASCII letter, and for `s` also U+017F (LATIN SMALL LETTER
      LONG S), which Python's `re` folds to `s`. */
  predicate FoldsTo(c: char, p: char) {
    || c == p
    || ('a' <= p <= 'z' && c as int == p as int - 32)
    || (p == 's' && c == '\U{17F}')
  }

  /** `s` matches the lower-case literal `p` under `re.IGNORECASE`. */
  predicate MatchesIgnoringCase(s: string, p: string) {
    |s| == |p| && forall i :: 0 <= i < |s| ==> FoldsTo(s[i], p[i])
  }

}
