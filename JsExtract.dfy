/**
  `scripts/wordlists/extract_from_js.py`: scans JavaScript and HTML files for
  path-like endpoints (`ENDPOINT_RE`) or query-parameter names (`PARAM_RE`) and
  prints the distinct tokens found, sorted.

  Each pattern is modelled twice: as the language it describes (a predicate
  on the text) and as the deterministic scan Python's `re.finditer` performs;
  lemmas connect the two.
 */
module JsExtract {
  import opened Optional
  import opened PyText
  import opened PyOrder

  // ---------------------------------------------------------------------
  // Character classes of the two patterns

  /** `[A-Za-z0-9_]`, the class both lookarounds of `ENDPOINT_RE` exclude. */
  predicate IsWord(c: char) {
    'A' <= c <= 'Z' || 'a' <= c <= 'z' || '0' <= c <= '9' || c == '_'
  }

  /** `[A-Za-z0-9._~\-]`: the unreserved characters of section 2.3 of RFC 3986. */
  predicate IsUnreserved(c: char) {
    IsWord(c) || c == '.' || c == '~' || c == '-'
  }

  /** `[0-9A-Fa-f]`. */
  predicate IsHex(c: char) {
    '0' <= c <= '9' || 'A' <= c <= 'F' || 'a' <= c <= 'f'
  }

  // ---------------------------------------------------------------------
  // The language of ENDPOINT_RE's group

  /** How many units of `(?:[A-Za-z0-9._~\-]|%[0-9A-Fa-f]{2})` make up `u`
      exactly, or `None`. A unit is one unreserved character or a `%` escape;
      `%` is not unreserved, so there is only one way to cut `u` into units. */
  function UnitCount(u: string): Option<nat>
    decreases |u|
  {
    if u == [] then Some(0)
    else if IsUnreserved(u[0]) then
      (match UnitCount(u[1..]) case Some(n) => Some(n + 1) case None => None)
    else if |u| >= 3 && u[0] == '%' && IsHex(u[1]) && IsHex(u[2]) then
      (match UnitCount(u[3..]) case Some(n) => Some(n + 1) case None => None)
    else None
  }

  /** A path segment of the pattern: 1 to 64 units. */
  predicate Segment(u: string) {
    UnitCount(u).Some? && 1 <= UnitCount(u).value <= 64
  }

  /** Units never hold a `/`. */
  lemma {:induction false} UnitsNoSlash(u: string)
    requires UnitCount(u).Some?
    ensures '/' !in u
    decreases |u|
  {
    if u != [] {
      if IsUnreserved(u[0]) {
        UnitsNoSlash(u[1..]);
        assert u == [u[0]] + u[1..];
      } else {
        UnitsNoSlash(u[3..]);
        assert u == u[..3] + u[3..];
      }
    }
  }

  /** `u` is one to `k` segments joined by `/`: a segment up to the first
      `/`, and after it, if there is one, at most `k - 1` more. */
  predicate PathShape(u: string, k: nat)
    decreases k
  {
    var first := Before(u, '/');
    k >= 1 && Segment(first) && (|first| == |u| || PathShape(u[|first| + 1..], k - 1))
  }

  /** Every piece is a segment. */
  predicate Segments(segs: seq<string>) {
    forall j :: 0 <= j < |segs| ==> Segment(segs[j])
  }

  lemma SegmentsCons(first: string, more: seq<string>)
    ensures Segments([first] + more) <==> Segment(first) && Segments(more)
  {
    var segs := [first] + more;
    if Segment(first) && Segments(more) {
      forall j | 0 <= j < |segs| ensures Segment(segs[j]) {
        if j > 0 {
          assert segs[j] == more[j - 1];
        }
      }
    }
    if Segments(segs) {
      assert segs[0] == first;
      forall j | 0 <= j < |more| ensures Segment(more[j]) {
        assert more[j] == segs[j + 1];
      }
    }
  }

  /** The same shape through `str.split`: `u.split('/')` has one to `k`
      pieces, each a segment. */
  lemma {:induction false} PathShapeSplit(u: string, k: nat)
    ensures PathShape(u, k) <==> |Split(u, '/')| <= k && Segments(Split(u, '/'))
    decreases k
  {
    var first := Before(u, '/');
    var segs := Split(u, '/');
    if |first| == |u| {
      assert PathShape(u, k) <==> |segs| <= k && Segments(segs) by {
        assert first == u;
        assert segs == [u];
        SegmentsCons(u, []);
        assert [u] + [] == [u];
      }
    } else if k >= 1 {
      var rest := u[|first| + 1..];
      var more := Split(rest, '/');
      PathShapeSplit(rest, k - 1);
      assert PathShape(u, k) <==> |segs| <= k && Segments(segs) by {
        assert segs == [first] + more;
        SegmentsCons(first, more);
      }
    } else {
      assert !PathShape(u, k);
    }
  }

  /** What group 1 of `ENDPOINT_RE` matches: a `/` and then one to seven
      segments separated by `/`. */
  predicate EndpointShape(t: string) {
    |t| >= 1 && t[0] == '/' && PathShape(t[1..], 7)
  }

  /** `(?<![A-Za-z0-9_])` before position `i`. */
  predicate Behind(s: string, i: nat)
    requires i <= |s|
  {
    i == 0 || !IsWord(s[i - 1])
  }

  /** `(?![A-Za-z0-9_])` at position `e`. */
  predicate Ahead(s: string, e: nat)
    requires e <= |s|
  {
    e == |s| || !IsWord(s[e])
  }

  // ---------------------------------------------------------------------
  // How `re` matches ENDPOINT_RE at one position

  /** The length of the unit starting at `p`, or 0 when none starts there. */
  function UnitAt(s: string, p: nat): (n: nat)
    requires p <= |s|
    ensures n == 0 || p + n <= |s|
  {
    if p < |s| && IsUnreserved(s[p]) then 1
    else if p + 2 < |s| && s[p] == '%' && IsHex(s[p + 1]) && IsHex(s[p + 2]) then 3
    else 0
  }

  /** Exactly `n` units lead from `p` to `q`. */
  predicate Reach(s: string, p: nat, q: nat, n: nat)
    decreases n
  {
    p <= |s| && if n == 0 then q == p else UnitAt(s, p) > 0 && Reach(s, p + UnitAt(s, p), q, n - 1)
  }

  /** The text passed over by `n` units is `n` units. */
  lemma {:induction false} ReachUnits(s: string, p: nat, q: nat, n: nat)
    requires Reach(s, p, q, n)
    ensures p <= q <= |s| && UnitCount(s[p..q]) == Some(n)
    decreases n
  {
    if n > 0 {
      var m := p + UnitAt(s, p);
      ReachUnits(s, m, q, n - 1);
      var u := s[p..q];
      if UnitAt(s, p) == 1 {
        assert u[1..] == s[m..q];
      } else {
        assert u[3..] == s[m..q];
        assert u[0] == s[p] && u[1] == s[p + 1] && u[2] == s[p + 2];
      }
    }
  }

  /** Where a greedy `{1,n}` of units starting at `p` stops. */
  function Greedy(s: string, p: nat, n: nat): (q: nat)
    requires p <= |s|
    ensures p <= q <= |s|
    decreases n
  {
    if n > 0 && UnitAt(s, p) > 0 then Greedy(s, p + UnitAt(s, p), n - 1) else p
  }

  lemma {:induction false} GreedyReach(s: string, p: nat, n: nat) returns (j: nat)
    requires p <= |s|
    ensures j <= n && Reach(s, p, Greedy(s, p, n), j)
    ensures n > 0 && UnitAt(s, p) > 0 ==> j >= 1
    decreases n
  {
    if n > 0 && UnitAt(s, p) > 0 {
      var i := GreedyReach(s, p + UnitAt(s, p), n - 1);
      j := i + 1;
    } else {
      j := 0;
    }
  }

  /** Backtracking inside the last segment: the furthest of the first `n`
      unit boundaries after `p` at which the lookahead holds. */
  function Backoff(s: string, p: nat, n: nat): (r: Option<nat>)
    requires p <= |s|
    ensures r.Some? ==> p < r.value <= |s| && Ahead(s, r.value)
    ensures forall q: nat, j: nat :: 1 <= j <= n && q <= |s| && Reach(s, p, q, j) && Ahead(s, q)
              ==> r.Some? && q <= r.value
    decreases n
  {
    if n == 0 || UnitAt(s, p) == 0 then None
    else
      var q := p + UnitAt(s, p);
      var later := Backoff(s, q, n - 1);
      if later.Some? then later else if Ahead(s, q) then Some(q) else None
  }

  lemma {:induction false} BackoffReach(s: string, p: nat, n: nat) returns (j: nat)
    requires p <= |s| && Backoff(s, p, n).Some?
    ensures 1 <= j <= n && Reach(s, p, Backoff(s, p, n).value, j)
    decreases n
  {
    var q := p + UnitAt(s, p);
    if Backoff(s, q, n - 1).Some? {
      var i := BackoffReach(s, q, n - 1);
      j := i + 1;
    } else {
      j := 1;
    }
  }

  /** The end of the match once the segment whose `/` is at `p` has been
      entered, with `k` more segments allowed. Each segment takes as many
      units as it can; the next one is tried first, and a segment that cannot
      be followed by the rest gives way to the end just before its `/`, where
      the lookahead always holds. Only the last segment backs off unit by
      unit: a segment cut short is followed by a unit, never by `/`. */
  function PathEnd(s: string, p: nat, k: nat): (r: Option<nat>)
    requires p < |s| && s[p] == '/'
    ensures r.Some? ==> p + 1 < r.value <= |s| && Ahead(s, r.value)
    decreases k
  {
    if UnitAt(s, p + 1) == 0 then None
    else if Continues(s, p, k) then
      var q := Greedy(s, p + 1, 64);
      var r := PathEnd(s, q, k - 1);
      if r.Some? then r else Some(q)
    else Backoff(s, p + 1, 64)
  }

  /** After the greedy run of the segment whose `/` is at `p`, another
      segment may follow: one is still allowed, and a `/` and a unit come
      next. */
  predicate Continues(s: string, p: nat, k: nat)
    requires p < |s|
  {
    var q := Greedy(s, p + 1, 64);
    k > 0 && q < |s| && s[q] == '/' && UnitAt(s, q + 1) > 0
  }

  /** One segment is a path of one segment. */
  lemma ShapeOne(u: string)
    requires Segment(u)
    ensures PathShape(u, 1)
  {
    UnitsNoSlash(u);
    BeforeAbsent(u, '/');
  }

  /** A segment, `/` and a path of at most `k` segments make a path of at
      most `k + 1`. */
  lemma ShapeCons(u: string, v: string, k: nat)
    requires Segment(u) && PathShape(v, k)
    ensures PathShape(u + ['/'] + v, k + 1)
  {
    UnitsNoSlash(u);
    BeforeSeparator(u, '/', v);
    assert (u + ['/'] + v)[|u| + 1..] == v;
  }

  /** `ShapeCons` on slices of one text, with the `/` at `q`. */
  lemma ShapeSlices(s: string, p: nat, q: nat, e: nat, k: nat)
    requires p <= q < e <= |s| && s[q] == '/'
    requires Segment(s[p..q]) && PathShape(s[q + 1..e], k)
    ensures PathShape(s[p..e], k + 1)
  {
    assert s[p..e] == s[p..q] + ['/'] + s[q + 1..e];
    ShapeCons(s[p..q], s[q + 1..e], k);
  }

  /** The units from `p` to `q`, one to 64 of them, form a segment. */
  lemma ReachSegment(s: string, p: nat, q: nat, n: nat)
    requires Reach(s, p, q, n) && 1 <= n <= 64
    ensures p <= q <= |s| && Segment(s[p..q])
  {
    ReachUnits(s, p, q, n);
  }

  /** The text `PathEnd` settles on is one to `k + 1` segments. */
  lemma {:induction false} PathEndShape(s: string, p: nat, k: nat)
    requires p < |s| && s[p] == '/' && PathEnd(s, p, k).Some?
    ensures PathShape(s[p + 1..PathEnd(s, p, k).value], k + 1)
    decreases k
  {
    var e := PathEnd(s, p, k).value;
    var q := Greedy(s, p + 1, 64);
    if Continues(s, p, k) {
      assert Segment(s[p + 1..q]) by {
        assert UnitAt(s, p + 1) > 0;
        var j := GreedyReach(s, p + 1, 64);
        ReachSegment(s, p + 1, q, j);
      }
      var r := PathEnd(s, q, k - 1);
      if r.Some? {
        assert e == r.value;
        PathEndShape(s, q, k - 1);
        ShapeSlices(s, p + 1, q, e, k);
      } else {
        assert e == q;
        ShapeOne(s[p + 1..q]);
      }
    } else {
      assert Segment(s[p + 1..e]) by {
        assert PathEnd(s, p, k) == Backoff(s, p + 1, 64);
        var i := BackoffReach(s, p + 1, 64);
        ReachSegment(s, p + 1, e, i);
      }
      ShapeOne(s[p + 1..e]);
    }
  }

  /** `ENDPOINT_RE.match` at position `i`: the end of group 1, or `None`. */
  function EndpointMatch(s: string, i: nat): (r: Option<nat>)
    requires i <= |s|
    ensures r.Some? ==> i < r.value <= |s|
  {
    if i < |s| && s[i] == '/' && Behind(s, i) then PathEnd(s, i, 6) else None
  }

  /** What `EndpointMatch` finds is an endpoint, with neither a word character
      before it nor one after it. */
  lemma EndpointMatchSound(s: string, i: nat)
    requires i <= |s| && EndpointMatch(s, i).Some?
    ensures Behind(s, i) && Ahead(s, EndpointMatch(s, i).value)
    ensures EndpointShape(s[i..EndpointMatch(s, i).value])
  {
    var e := EndpointMatch(s, i).value;
    PathEndShape(s, i, 6);
    assert s[i..e][1..] == s[i + 1..e];
  }

  /** A text of `n` units is reached by `n` units. */
  lemma {:induction false} UnitsReach(s: string, p: nat, q: nat, n: nat)
    requires p <= q <= |s| && UnitCount(s[p..q]) == Some(n)
    ensures Reach(s, p, q, n)
    decreases n
  {
    var u := s[p..q];
    if u != [] {
      if IsUnreserved(u[0]) {
        assert u[1..] == s[p + 1..q];
        UnitsReach(s, p + 1, q, n - 1);
      } else {
        assert u[3..] == s[p + 3..q];
        UnitsReach(s, p + 3, q, n - 1);
      }
    }
  }

  /** A greedy run of at most `m` units passes every boundary within `m`
      units, and stops at one where no unit starts. */
  lemma {:induction false} GreedyPast(s: string, p: nat, m: nat, q: nat, n: nat)
    requires Reach(s, p, q, n) && n <= m
    ensures q <= Greedy(s, p, m)
    ensures UnitAt(s, q) == 0 ==> Greedy(s, p, m) == q
    decreases n
  {
    if n > 0 {
      GreedyPast(s, p + UnitAt(s, p), m - 1, q, n - 1);
    }
  }

  /** Cutting the slice `s[a..e]` at its first `/`, in positions of `s`. */
  lemma CutSlice(s: string, a: nat, e: nat) returns (q: nat)
    requires a <= e <= |s|
    ensures q == a + |Before(s[a..e], '/')| && q <= e
    ensures s[a..q] == Before(s[a..e], '/')
    ensures q < e ==> s[q] == '/' && s[a..e][q - a + 1..] == s[q + 1..e]
  {
    var u := s[a..e];
    q := a + |Before(u, '/')|;
    assert s[a..q] == u[..q - a];
    if q < e {
      assert s[q] == u[q - a];
    }
  }

  /** A path of at most `k + 1` segments in `s[a..e]`: its first segment
      is the `n` units from `a` to `q`, and after a `/` at `q` comes a path of
      at most `k`. */
  lemma ShapeCut(s: string, a: nat, e: nat, k: nat) returns (q: nat, n: nat)
    requires a <= e <= |s| && PathShape(s[a..e], k + 1)
    ensures a <= q <= e && Reach(s, a, q, n) && 1 <= n <= 64
    ensures q < e ==> s[q] == '/' && k > 0 && PathShape(s[q + 1..e], k)
  {
    var u := s[a..e];
    n := UnitCount(Before(u, '/')).value;
    q := CutSlice(s, a, e);
    UnitsReach(s, a, q, n);
    if q < e {
      assert u[|Before(u, '/')| + 1..] == s[q + 1..e];
    }
  }

  /** A path starts with a unit. */
  lemma ShapeFirstUnit(s: string, a: nat, e: nat, k: nat)
    requires a <= e <= |s| && k > 0 && PathShape(s[a..e], k)
    ensures UnitAt(s, a) > 0
  {
    var q, n := ShapeCut(s, a, e, k - 1);
  }

  /** `ShapeCut`, and when a `/` follows the first segment, a unit follows
      the `/`. */
  lemma ShapeCutMore(s: string, a: nat, e: nat, k: nat) returns (q: nat, n: nat)
    requires a <= e <= |s| && PathShape(s[a..e], k + 1)
    ensures a <= q <= e && Reach(s, a, q, n) && 1 <= n <= 64
    ensures q < e ==> s[q] == '/' && k > 0 && PathShape(s[q + 1..e], k) && UnitAt(s, q + 1) > 0
  {
    q, n := ShapeCut(s, a, e, k);
    if q < e {
      ShapeFirstUnit(s, q + 1, e, k);
    }
  }

  /** A last segment of `n` units ending where the lookahead holds ends no
      further than `PathEnd`. */
  lemma LongestLast(s: string, p: nat, k: nat, e: nat, n: nat)
    requires p < e <= |s| && s[p] == '/'
    requires Reach(s, p + 1, e, n) && 1 <= n <= 64 && Ahead(s, e)
    ensures PathEnd(s, p, k).Some? && e <= PathEnd(s, p, k).value
  {
    var q := Greedy(s, p + 1, 64);
    assert e <= q by {
      GreedyPast(s, p + 1, 64, e, n);
    }
    assert UnitAt(s, p + 1) > 0;
    if Continues(s, p, k) {
      var r := PathEnd(s, q, k - 1);
      assert PathEnd(s, p, k) == if r.Some? then r else Some(q);
    } else {
      assert PathEnd(s, p, k) == Backoff(s, p + 1, 64);
      assert Backoff(s, p + 1, 64).Some? && e <= Backoff(s, p + 1, 64).value;
    }
  }

  /** A segment followed by `/` and more: the greedy run stops at that `/`,
      and the rest decides. */
  lemma LongestMore(s: string, p: nat, k: nat, e: nat, q0: nat, n: nat)
    requires p < q0 < |s| && s[p] == '/' && s[q0] == '/' && k > 0
    requires Reach(s, p + 1, q0, n) && 1 <= n <= 64 && UnitAt(s, q0 + 1) > 0
    requires PathEnd(s, q0, k - 1).Some? && e <= PathEnd(s, q0, k - 1).value
    ensures PathEnd(s, p, k).Some? && e <= PathEnd(s, p, k).value
  {
    GreedyToSlash(s, p + 1, q0, n);
    ContinuedEnd(s, p, k);
  }

  /** A greedy segment stops at the `/` that ends it. */
  lemma GreedyToSlash(s: string, a: nat, q: nat, n: nat)
    requires q < |s| && s[q] == '/' && Reach(s, a, q, n) && 1 <= n <= 64
    ensures Greedy(s, a, 64) == q && UnitAt(s, a) > 0
  {
    assert UnitAt(s, q) == 0;
    GreedyPast(s, a, 64, q, n);
  }

  /** When another segment follows and the rest matches, the rest decides
      the end. */
  lemma ContinuedEnd(s: string, p: nat, k: nat)
    requires p < |s| && s[p] == '/' && UnitAt(s, p + 1) > 0 && Continues(s, p, k)
    requires PathEnd(s, Greedy(s, p + 1, 64), k - 1).Some?
    ensures PathEnd(s, p, k) == PathEnd(s, Greedy(s, p + 1, 64), k - 1)
  {
  }

  /** No candidate is longer than what `PathEnd` settles on: any text of one
      to `k + 1` segments after the `/` at `p` with the lookahead holding
      after it ends no further than `PathEnd`. */
  lemma {:induction false} PathLongest(s: string, p: nat, k: nat, e: nat)
    requires p < e <= |s| && s[p] == '/'
    requires PathShape(s[p + 1..e], k + 1) && Ahead(s, e)
    ensures PathEnd(s, p, k).Some? && e <= PathEnd(s, p, k).value
    decreases k
  {
    var q0, n := ShapeCutMore(s, p + 1, e, k);
    if q0 == e {
      LongestLast(s, p, k, e, n);
    } else {
      PathLongest(s, q0, k - 1, e);
      LongestMore(s, p, k, e, q0, n);
    }
  }

  /** `ENDPOINT_RE.match` at `i` takes the longest text the pattern allows
      there: backtracking tries longer ends first. */
  lemma EndpointMatchLongest(s: string, i: nat, e: nat)
    requires i < e <= |s| && Behind(s, i) && Ahead(s, e)
    requires EndpointShape(s[i..e])
    ensures EndpointMatch(s, i).Some? && e <= EndpointMatch(s, i).value
  {
    assert s[i..e][1..] == s[i + 1..e];
    PathLongest(s, i, 6, e);
  }

  /** `[m.group(1) for m in ENDPOINT_RE.finditer(s, i)]`: each search resumes
      where the previous match ended. */
  function EndpointScan(s: string, i: nat): seq<string>
    requires i <= |s|
    decreases |s| - i
  {
    if i == |s| then []
    else
      match EndpointMatch(s, i)
      case Some(e) => [s[i..e]] + EndpointScan(s, e)
      case None => EndpointScan(s, i + 1)
  }

  /** Every token of the scan is what `EndpointMatch` finds at some position
      from `i` on; by `EndpointMatchSound` it is an endpoint with neither a
      word character before it nor one after it. */
  lemma {:induction false} EndpointScanSound(s: string, i: nat, t: string) returns (a: nat, e: nat)
    requires i <= |s| && t in EndpointScan(s, i)
    ensures i <= a < e <= |s| && t == s[a..e]
    ensures EndpointMatch(s, a) == Some(e)
    decreases |s| - i
  {
    match EndpointMatch(s, i)
    case Some(e0) =>
      assert EndpointScan(s, i) == [s[i..e0]] + EndpointScan(s, e0);
      if t == s[i..e0] {
        a, e := i, e0;
      } else {
        a, e := EndpointScanSound(s, e0, t);
      }
    case None =>
      assert EndpointScan(s, i) == EndpointScan(s, i + 1);
      a, e := EndpointScanSound(s, i + 1, t);
  }

  /** The scan misses no position where the pattern matches, except those
      inside a match it has taken. */
  lemma {:induction false} EndpointScanCovers(s: string, i: nat, p: nat) returns (a: nat, e: nat)
    requires i <= p < |s| && EndpointMatch(s, p).Some?
    ensures i <= a <= p < e <= |s| && EndpointMatch(s, a) == Some(e)
    ensures s[a..e] in EndpointScan(s, i)
    decreases |s| - i
  {
    var m := EndpointMatch(s, i);
    if m.Some? {
      assert EndpointScan(s, i) == [s[i..m.value]] + EndpointScan(s, m.value);
      if p < m.value {
        a, e := i, m.value;
      } else {
        a, e := EndpointScanCovers(s, m.value, p);
      }
    } else {
      assert i < p;
      assert EndpointScan(s, i) == EndpointScan(s, i + 1);
      a, e := EndpointScanCovers(s, i + 1, p);
    }
  }

  // ---------------------------------------------------------------------
  // PARAM_RE: `[?&]([A-Za-z_][A-Za-z0-9_\-]{1,60})=`

  /** `[A-Za-z_]`. */
  predicate IsNameStart(c: char) {
    'A' <= c <= 'Z' || 'a' <= c <= 'z' || c == '_'
  }

  /** `[A-Za-z0-9_\-]`. */
  predicate IsNameChar(c: char) {
    IsNameStart(c) || '0' <= c <= '9' || c == '-'
  }

  /** A parameter name as group 1 captures it. */
  predicate ParamName(t: string) {
    2 <= |t| <= 61 && IsNameStart(t[0]) && forall j :: 1 <= j < |t| ==> IsNameChar(t[j])
  }

  /** The pattern matches `s[i..k + 1]`: `?` or `&` at `i`, the name in
      `s[i + 1..k]`, `=` at `k`. */
  predicate ParamSpec(s: string, i: nat, k: nat) {
    && i + 3 <= k < |s|
    && (s[i] == '?' || s[i] == '&')
    && ParamName(s[i + 1..k])
    && s[k] == '='
  }

  /** Where the run of name characters from `p` stops. */
  function NameEnd(s: string, p: nat): (k: nat)
    requires p <= |s|
    ensures p <= k <= |s| && (k == |s| || !IsNameChar(s[k]))
    ensures forall j :: p <= j < k ==> IsNameChar(s[j])
    decreases |s| - p
  {
    if p < |s| && IsNameChar(s[p]) then NameEnd(s, p + 1) else p
  }

  /** A run stops at the first character outside the class. */
  lemma {:induction false} NameEndStops(s: string, p: nat, k: nat)
    requires p <= k <= |s|
    requires forall j :: p <= j < k ==> IsNameChar(s[j])
    requires k == |s| || !IsNameChar(s[k])
    ensures NameEnd(s, p) == k
    decreases k - p
  {
    if p < k {
      NameEndStops(s, p + 1, k);
    }
  }

  /** `PARAM_RE.match` at position `i`: the position of the `=`, or `None`.
      The name is the whole run of name characters: `=` is not one of them,
      so a shorter repetition cannot be followed by `=`, and a run longer
      than the 61 characters the pattern allows fails. */
  function ParamAt(s: string, i: nat): (r: Option<nat>)
    requires i <= |s|
    ensures r.Some? ==> i + 3 <= r.value < |s| && (s[i] == '?' || s[i] == '&') && s[r.value] == '='
  {
    if i + 1 < |s| && (s[i] == '?' || s[i] == '&') && IsNameStart(s[i + 1]) then
      var k := NameEnd(s, i + 2);
      if i + 3 <= k <= i + 62 && k < |s| && s[k] == '=' then Some(k) else None
    else None
  }

  /** The match `ParamAt` finds is exactly the one the pattern describes. */
  lemma ParamAtIff(s: string, i: nat, k: nat)
    requires i <= |s|
    ensures ParamAt(s, i) == Some(k) <==> ParamSpec(s, i, k)
  {
    if ParamSpec(s, i, k) {
      var t := s[i + 1..k];
      forall j | i + 2 <= j < k ensures IsNameChar(s[j]) {
        assert s[j] == t[j - i - 1];
      }
      NameEndStops(s, i + 2, k);
    }
    if ParamAt(s, i) == Some(k) {
      var t := s[i + 1..k];
      forall j | 1 <= j < |t| ensures IsNameChar(t[j]) {
        assert t[j] == s[i + 1 + j];
      }
    }
  }

  /** `[m.group(1) for m in PARAM_RE.finditer(s, i)]`. */
  function ParamScan(s: string, i: nat): seq<string>
    requires i <= |s|
    decreases |s| - i
  {
    if i == |s| then []
    else
      match ParamAt(s, i)
      case Some(k) => [s[i + 1..k]] + ParamScan(s, k + 1)
      case None => ParamScan(s, i + 1)
  }

  /** Every name the pattern describes anywhere in `s`. */
  ghost function ParamSet(s: string): set<string> {
    set i: nat, k: nat | i < k < |s| && ParamSpec(s, i, k) :: s[i + 1..k]
  }

  /** Every token of the scan is a name the pattern describes. */
  lemma {:induction false} ParamScanSound(s: string, i: nat, t: string) returns (a: nat, k: nat)
    requires i <= |s| && t in ParamScan(s, i)
    ensures i <= a && ParamSpec(s, a, k) && t == s[a + 1..k]
    decreases |s| - i
  {
    match ParamAt(s, i)
    case Some(k0) =>
      ParamAtIff(s, i, k0);
      if t == s[i + 1..k0] {
        a, k := i, k0;
      } else {
        a, k := ParamScanSound(s, k0 + 1, t);
      }
    case None =>
      a, k := ParamScanSound(s, i + 1, t);
  }

  /** The name and the `=` of a match hold no `?` or `&`. */
  lemma NoMarkInMatch(s: string, a: nat, k: nat)
    requires ParamSpec(s, a, k)
    ensures forall j :: a < j <= k ==> s[j] != '?' && s[j] != '&'
  {
    forall j | a < j < k ensures s[j] != '?' && s[j] != '&' {
      assert s[j] == s[a + 1..k][j - a - 1];
    }
  }

  /** A match ends before any later match starts. */
  lemma MatchesApart(s: string, a: nat, k0: nat, i: nat, k: nat)
    requires a < i <= |s| && ParamAt(s, a) == Some(k0) && ParamAt(s, i) == Some(k)
    ensures k0 < i
  {
    ParamAtIff(s, a, k0);
    ParamAtIff(s, i, k);
    NoMarkInMatch(s, a, k0);
  }

  /** The scan from a match yields its name first. */
  lemma ScanHead(s: string, i: nat, k: nat)
    requires i <= |s| && ParamAt(s, i) == Some(k)
    ensures s[i + 1..k] in ParamScan(s, i)
  {
  }

  /** What the scan yields after its first step, it yields. */
  lemma ScanKeeps(s: string, a: nat, t: string)
    requires a < |s|
    ensures ParamAt(s, a).Some? && t in ParamScan(s, ParamAt(s, a).value + 1) ==> t in ParamScan(s, a)
    ensures ParamAt(s, a).None? && t in ParamScan(s, a + 1) ==> t in ParamScan(s, a)
  {
  }

  /** The scan from `a` yields the name of every match at or after `a`. */
  lemma {:induction false} ScanFinds(s: string, a: nat, i: nat, k: nat)
    requires a <= i <= |s| && ParamAt(s, i) == Some(k)
    ensures s[i + 1..k] in ParamScan(s, a)
    decreases |s| - a
  {
    if a == i {
      ScanHead(s, i, k);
    } else {
      var m := ParamAt(s, a);
      if m.Some? {
        assert m.value < i by {
          MatchesApart(s, a, m.value, i, k);
        }
        ScanFinds(s, m.value + 1, i, k);
      } else {
        ScanFinds(s, a + 1, i, k);
      }
      ScanKeeps(s, a, s[i + 1..k]);
    }
  }

  /** No match can start inside another, so skipping past a match loses
      nothing: every match at or after `a` is found. */
  lemma ParamScanComplete(s: string, a: nat, i: nat, k: nat)
    requires a <= i && ParamSpec(s, i, k)
    ensures s[i + 1..k] in ParamScan(s, a)
  {
    ParamAtIff(s, i, k);
    ScanFinds(s, a, i, k);
  }

  /** The scan finds exactly the names the pattern describes. */
  lemma ParamsExact(s: string)
    ensures Elems(ParamScan(s, 0)) == ParamSet(s)
  {
    forall t | t in ParamScan(s, 0) ensures t in ParamSet(s) {
      var a, k := ParamScanSound(s, 0, t);
    }
    forall t | t in ParamSet(s) ensures t in ParamScan(s, 0) {
      var i: nat, k: nat :| i < k < |s| && ParamSpec(s, i, k) && t == s[i + 1..k];
      ParamScanComplete(s, 0, i, k);
    }
  }

  // ---------------------------------------------------------------------
  // Choosing the files

  /** The position of the last `c` in `s`, as `str.rfind` gives it. */
  function LastIndex(s: string, c: char): (r: Option<nat>)
    ensures r.Some? ==> r.value < |s| && s[r.value] == c
    ensures r.Some? ==> forall j :: r.value < j < |s| ==> s[j] != c
    ensures r.None? ==> c !in s
  {
    if s == [] then None
    else if s[|s| - 1] == c then Some(|s| - 1)
    else LastIndex(s[..|s| - 1], c)
  }

  /** `PurePath.suffix` of a file name: from its last `.` to the end, unless
      that `.` is the first or the last character. */
  function Suffix(name: string): (r: string)
    ensures r == [] || (|r| < |name| && r == name[|name| - |r|..])
  {
    match LastIndex(name, '.')
    case Some(i) => if 0 < i < |name| - 1 then name[i..] else ""
    case None => ""
  }

  /** The extensions scanned in a directory: `.js`, `.mjs`, `.cjs`, `.html`. */
  predicate Wanted(ext: string) {
    ext == ".js" || ext == ".mjs" || ext == ".cjs" || ext == ".html"
  }

  /** An extension: a `.`, then at least one character and no other `.`. */
  predicate IsExtension(ext: string) {
    |ext| >= 2 && ext[0] == '.' && forall j :: 1 <= j < |ext| ==> ext[j] != '.'
  }

  lemma WantedExtension(ext: string)
    requires Wanted(ext)
    ensures IsExtension(ext)
  {
  }

  /** Lower-casing changes no character into `.` or out of it. */
  lemma LowerDots(s: string)
    ensures forall j :: 0 <= j < |s| ==> (Lower(s)[j] == '.' <==> s[j] == '.')
  {
  }

  /** A name has the lower-cased suffix `ext` exactly when it ends with `ext`
      in some mix of cases and has at least one character before it: a
      name such as `.js` has no suffix. */
  lemma SuffixIs(name: string, ext: string)
    requires IsExtension(ext)
    ensures Lower(Suffix(name)) == ext
        <==> |ext| < |name| && Lower(name[|name| - |ext|..]) == ext
  {
    var n := |name|;
    LowerDots(ext);
    if |ext| < n && Lower(name[n - |ext|..]) == ext {
      var tail := name[n - |ext|..];
      LowerDots(tail);
      assert tail[0] == '.' by {
        assert Lower(tail)[0] == '.';
      }
      assert name[n - |ext|] == '.';
      forall j | n - |ext| < j < n ensures name[j] != '.' {
        assert Lower(tail)[j - (n - |ext|)] != '.';
        assert tail[j - (n - |ext|)] == name[j];
      }
      assert LastIndex(name, '.') == Some(n - |ext|);
    }
    if Lower(Suffix(name)) == ext {
      var r := Suffix(name);
      assert |r| == |ext|;
    }
  }

  /** What the path walk found: a name, whether it is a regular file, and its
      text, `None` when reading it fails. */
  datatype Entry = Entry(name: string, isFile: bool, text: Option<string>)

  /** The path argument: a directory with the entries `rglob('*')` yields, or
      anything else, which is read as a single file. */
  datatype Root = Directory(entries: seq<Entry>) | Single(text: Option<string>)

  predicate Selected(e: Entry) {
    e.isFile && Wanted(Lower(Suffix(e.name)))
  }

  /** `name` ends with `ext` in some mix of cases, with at least one
      character before it. */
  predicate EndsWithIgnoringCase(name: string, ext: string) {
    |ext| < |name| && Lower(name[|name| - |ext|..]) == ext
  }

  /** The name ends in a wanted extension, in any case. */
  predicate WantedEnding(name: string) {
    || EndsWithIgnoringCase(name, ".js") || EndsWithIgnoringCase(name, ".mjs")
    || EndsWithIgnoringCase(name, ".cjs") || EndsWithIgnoringCase(name, ".html")
  }

  /** A directory entry is read exactly when it is a regular file whose name
      ends in `.js`, `.mjs`, `.cjs` or `.html`, in any case, after at least
      one other character. */
  lemma SelectedIff(e: Entry)
    ensures Selected(e) <==> e.isFile && WantedEnding(e.name)
  {
    SuffixIsWanted(e.name, ".js");
    SuffixIsWanted(e.name, ".mjs");
    SuffixIsWanted(e.name, ".cjs");
    SuffixIsWanted(e.name, ".html");
  }

  lemma SuffixIsWanted(name: string, ext: string)
    requires Wanted(ext)
    ensures Lower(Suffix(name)) == ext <==> EndsWithIgnoringCase(name, ext)
  {
    WantedExtension(ext);
    SuffixIs(name, ext);
  }

  /** The texts of the entries `keep` accepts, in walk order. */
  function Filter(es: seq<Entry>, keep: Entry -> bool): seq<Option<string>> {
    if es == [] then []
    else Filter(es[..|es| - 1], keep) + (if keep(es[|es| - 1]) then [es[|es| - 1].text] else [])
  }

  /** The files the script reads. */
  function Files(root: Root): seq<Option<string>> {
    match root
    case Directory(entries) => Filter(entries, Selected)
    case Single(text) => [text]
  }

  /** The filtered texts are exactly those of accepted entries. */
  lemma {:induction false} FilterExact(es: seq<Entry>, keep: Entry -> bool, x: Option<string>)
    ensures x in Filter(es, keep) <==> exists k :: 0 <= k < |es| && keep(es[k]) && es[k].text == x
  {
    if es != [] {
      var init, last := es[..|es| - 1], es[|es| - 1];
      FilterExact(init, keep, x);
      var tail := if keep(last) then [last.text] else [];
      assert Filter(es, keep) == Filter(init, keep) + tail;
      if x in Filter(init, keep) {
        var k :| 0 <= k < |init| && keep(init[k]) && init[k].text == x;
        assert es[k] == init[k];
      } else if x in tail {
        assert es[|es| - 1] == last;
      } else {
        forall k | 0 <= k < |es| ensures !(keep(es[k]) && es[k].text == x) {
          if k < |init| {
            assert es[k] == init[k];
          }
        }
      }
    }
  }

  /** In a directory, the files read are exactly the selected entries. */
  lemma DirectoryFiles(entries: seq<Entry>, x: Option<string>)
    ensures x in Files(Directory(entries))
        <==> exists k :: 0 <= k < |entries| && Selected(entries[k]) && entries[k].text == x
  {
    FilterExact(entries, Selected, x);
  }

  /** The first loop of `main`: the files to read. */
  method ListFiles(root: Root) returns (files: seq<Option<string>>)
    ensures files == Files(root)
  {
    match root
    case Single(text) =>
      files := [text];
    case Directory(entries) =>
      files := [];
      for j := 0 to |entries|
        invariant files == Filter(entries[..j], Selected)
      {
        assert entries[..j + 1][..j] == entries[..j];
        if Selected(entries[j]) {
          files := files + [entries[j].text];
        }
      }
      assert entries[..|entries|] == entries;
  }

  // ---------------------------------------------------------------------
  // Collecting the tokens

  /** Endpoints longer than this are dropped. */
  const MaxEndpointLength := 140

  /** The endpoints of one text that are kept. */
  function EndpointsIn(txt: string): set<string> {
    set t | t in EndpointScan(txt, 0) && |t| <= MaxEndpointLength
  }

  /** The tokens one readable file contributes for `kind`; an unknown kind
      contributes none, since the script stops before using it. */
  function FoundIn(kind: string, txt: string): set<string> {
    if kind == "endpoints" then EndpointsIn(txt)
    else if kind == "params" then Elems(ParamScan(txt, 0))
    else {}
  }

  predicate IsKind(kind: string) {
    kind == "endpoints" || kind == "params"
  }

  /** The union of the tokens of the readable files. */
  function Harvest(kind: string, files: seq<Option<string>>): set<string> {
    if files == [] then {}
    else
      Harvest(kind, files[..|files| - 1])
      + (match files[|files| - 1] case Some(txt) => FoundIn(kind, txt) case None => {})
  }

  /** Some file can be read. */
  predicate Readable(files: seq<Option<string>>) {
    exists j :: 0 <= j < |files| && files[j].Some?
  }

  /** The tokens are the union over the readable files. */
  lemma {:induction false} HarvestUnion(kind: string, files: seq<Option<string>>, t: string)
    ensures t in Harvest(kind, files)
        <==> exists j :: 0 <= j < |files| && files[j].Some? && t in FoundIn(kind, files[j].value)
  {
    if files != [] {
      var init := files[..|files| - 1];
      HarvestUnion(kind, init, t);
      if exists j :: 0 <= j < |init| && init[j].Some? && t in FoundIn(kind, init[j].value) {
        var j :| 0 <= j < |init| && init[j].Some? && t in FoundIn(kind, init[j].value);
        assert files[j] == init[j];
      }
      if exists j :: 0 <= j < |files| && files[j].Some? && t in FoundIn(kind, files[j].value) {
        var j :| 0 <= j < |files| && files[j].Some? && t in FoundIn(kind, files[j].value);
        if j < |init| {
          assert init[j] == files[j];
        }
      }
    }
  }

  /** Every endpoint printed was matched in a file that was read: it has the
      endpoint shape, at most 140 characters, and no word character on either
      side of it there. */
  lemma EndpointsOutput(files: seq<Option<string>>, t: string) returns (j: nat, a: nat, e: nat)
    requires t in Harvest("endpoints", files)
    ensures j < |files| && files[j].Some?
    ensures a < e <= |files[j].value| && t == files[j].value[a..e]
    ensures EndpointShape(t) && |t| <= MaxEndpointLength
    ensures Behind(files[j].value, a) && Ahead(files[j].value, e)
  {
    HarvestUnion("endpoints", files, t);
    j :| 0 <= j < |files| && files[j].Some? && t in FoundIn("endpoints", files[j].value);
    var txt := files[j].value;
    a, e := EndpointScanSound(txt, 0, t);
    EndpointMatchSound(txt, a);
  }

  /** Every position of a file that was read where `ENDPOINT_RE` matches lies
      in a match the scan took; that match is printed unless it is longer
      than 140 characters. */
  lemma EndpointsCovered(files: seq<Option<string>>, j: nat, p: nat) returns (a: nat, e: nat)
    requires j < |files| && files[j].Some?
    requires p < |files[j].value| && EndpointMatch(files[j].value, p).Some?
    ensures a <= p < e <= |files[j].value| && EndpointMatch(files[j].value, a) == Some(e)
    ensures e - a <= MaxEndpointLength ==> files[j].value[a..e] in Harvest("endpoints", files)
  {
    var txt := files[j].value;
    a, e := EndpointScanCovers(txt, 0, p);
    HarvestUnion("endpoints", files, txt[a..e]);
  }

  /** Every name printed for `params` follows a `?` or `&` and precedes a `=`
      in a file that was read, and is a parameter name. */
  lemma ParamsOutput(files: seq<Option<string>>, t: string) returns (j: nat, i: nat, k: nat)
    requires t in Harvest("params", files)
    ensures j < |files| && files[j].Some?
    ensures ParamSpec(files[j].value, i, k) && t == files[j].value[i + 1..k]
    ensures ParamName(t)
  {
    HarvestUnion("params", files, t);
    j :| 0 <= j < |files| && files[j].Some? && t in FoundIn("params", files[j].value);
    i, k := ParamScanSound(files[j].value, 0, t);
  }

  /** Every name the pattern describes in a file that was read is printed. */
  lemma ParamsAllFound(files: seq<Option<string>>, j: nat, i: nat, k: nat)
    requires j < |files| && files[j].Some? && ParamSpec(files[j].value, i, k)
    ensures files[j].value[i + 1..k] in Harvest("params", files)
  {
    var txt := files[j].value;
    ParamScanComplete(txt, 0, i, k);
    HarvestUnion("params", files, txt[i + 1..k]);
  }

  /** `for m in ENDPOINT_RE.finditer(txt)`: adds the short enough endpoints. */
  method AddEndpoints(out0: set<string>, txt: string) returns (out: set<string>)
    ensures out == out0 + EndpointsIn(txt)
  {
    var ms := EndpointScan(txt, 0);
    out := out0;
    for j := 0 to |ms|
      invariant out == out0 + (set t | t in ms[..j] && |t| <= MaxEndpointLength)
    {
      assert ms[..j + 1] == ms[..j] + [ms[j]];
      var ep := ms[j];
      if |ep| <= MaxEndpointLength {
        out := out + {ep};
      }
    }
    assert ms[..|ms|] == ms;
  }

  /** `for m in PARAM_RE.finditer(txt)`: adds every name. */
  method AddParams(out0: set<string>, txt: string) returns (out: set<string>)
    ensures out == out0 + Elems(ParamScan(txt, 0))
  {
    var ms := ParamScan(txt, 0);
    out := out0;
    for j := 0 to |ms|
      invariant out == out0 + Elems(ms[..j])
    {
      assert ms[..j + 1] == ms[..j] + [ms[j]];
      out := out + {ms[j]};
    }
    assert ms[..|ms|] == ms;
  }

  /** The loop of `main()` over the files: the tokens of every readable
      file, or `known == false` when `kind` is unknown and some file can be
      read, where the script gives up. */
  method CollectFound(kind: string, files: seq<Option<string>>) returns (known: bool, out: set<string>)
    ensures known <==> IsKind(kind) || !Readable(files)
    ensures known ==> out == Harvest(kind, files)
  {
    out := {};
    var j := 0;
    while j < |files|
      invariant 0 <= j <= |files|
      invariant out == Harvest(kind, files[..j])
      invariant IsKind(kind) || !Readable(files[..j])
    {
      assert files[..j + 1][..j] == files[..j];
      if files[j].None? {
        j := j + 1;
        continue;
      }
      var txt := files[j].value;
      if kind == "endpoints" {
        out := AddEndpoints(out, txt);
      } else if kind == "params" {
        out := AddParams(out, txt);
      } else {
        assert files[..j + 1][j].Some?;
        ReadablePrefix(files, j + 1);
        return false, {};
      }
      j := j + 1;
    }
    assert files[..j] == files;
    known := true;
  }

  /** `main()` with `argv` as `sys.argv`: the exit code and the lines
      printed. Fewer than two arguments is a usage error; an unknown kind is
      reported at the first file that can be read, and with no readable file
      the run ends normally with no output. */
  method ExtractFromJs(argv: seq<string>, root: Root) returns (code: int, lines: seq<string>)
    ensures |argv| < 3 ==> code == 2 && lines == []
    ensures |argv| >= 3 ==> (code == 2 <==> !IsKind(argv[1]) && Readable(Files(root)))
    ensures code == 2 ==> lines == []
    ensures code != 2 ==> code == 0 && StrictlySorted(lines)
    ensures code == 0 ==> Elems(lines) == Harvest(argv[1], Files(root))
  {
    if |argv| < 3 {
      return 2, [];
    }
    var files := ListFiles(root);
    var known, out := CollectFound(argv[1], files);
    if !known {
      return 2, [];
    }
    lines := SortedList(out);
    code := 0;
  }

  /** A readable file in a prefix is a readable file of the whole list. */
  lemma ReadablePrefix(files: seq<Option<string>>, n: nat)
    requires n <= |files| && Readable(files[..n])
    ensures Readable(files)
  {
    var j :| 0 <= j < n && files[..n][j].Some?;
    assert files[j] == files[..n][j];
  }

}
