# Wordlist and allowlist helpers of the pentest toolkit, in Dafny

This project models the three text-processing scripts at the centre of the
toolkit's wordlist and scanner tooling, and proves what they compute.

- `scripts/wordlists/extract_paths_from_ffuf.py` (module `FfufPaths`) reads
  the `results` of an ffuf JSON report. It matches each `url` against
  `URL_RE`, and `norm_token` reduces the path to its first segment. The
  script then prints the distinct non-empty tokens, sorted.
- `scripts/nuclei/generate_cvss10_allowlist.py` (module `CvssAllowlist`)
  walks a nuclei-templates tree. It keeps the templates under `http/cves/`
  whose text matches `CVSS_RE`, a `cvss-score` of 10. It writes their paths,
  sorted and without duplicates, one per line, and prints the count.
- `scripts/wordlists/extract_from_js.py` (module `JsExtract`) collects
  endpoint paths (`ENDPOINT_RE`) or query parameter names (`PARAM_RE`) from
  the `.js`, `.mjs`, `.cjs` and `.html` files under a directory, or from a
  single file. It prints the distinct tokens, sorted.

Three support modules hold the Python behaviour the scripts rely on:

- `PyText`: `str.strip`, `split`, `join`, `lower` and `re.IGNORECASE`
  matching.
- `PyOrder`: `sorted()` over a set of strings.
- `Optional`: an `Option` type.

Each regular expression is modelled twice:

- as the language it describes, a predicate over the text;
- as the deterministic left-to-right scan that Python's `re` engine performs.

Lemmas prove that the two agree. This covers the greedy-then-backtrack
behaviour of `ENDPOINT_RE`: the scan returns the longest match at each
position. It also covers the way `re.finditer` resumes after each match.

Each script's `main()` is a method. Its parameters are what the script reads
from outside: `sys.argv`, the `url` values, the walk's results, and file
contents or read failures. It returns the exit code and the lines printed,
or the file written.

The header comment of the ffuf script gives `"admin"` from
`"https://x/y/admin"` as its example, but the code keeps the first path
segment (`y`). The model follows the code, and
`FfufPaths.UrlTokenFirstSegment` states what the code does.

## Model

| member | source | states |
|---|---|---|
| FfufPaths.WithoutQuery | scripts/wordlists/extract_paths_from_ffuf.py:18 | the result is the longest prefix of the path that contains no `?` or `#`: it stops at the first of either, or at the end |
| FfufPaths.FirstSegment | scripts/wordlists/extract_paths_from_ffuf.py:24 | the segment contains no `/`, takes its characters from the path, and has no whitespace at either end |
| FfufPaths.NormToken | scripts/wordlists/extract_paths_from_ffuf.py:13-27 | a non-empty token has 1 to 80 characters, contains no `/`, `?` or `#`, and is trimmed of whitespace |
| FfufPaths.NormTokenIdempotent | scripts/wordlists/extract_paths_from_ffuf.py:13-27 | normalising a token a second time changes nothing |
| FfufPaths.CleanTokenKept | scripts/wordlists/extract_paths_from_ffuf.py:13-27 | a clean segment of at most 80 characters is its own token |
| FfufPaths.NormTokenBlank | scripts/wordlists/extract_paths_from_ffuf.py:14-22 | a path whose part before `?`/`#` is only slashes and whitespace gives the empty token |
| FfufPaths.NormTokenFirstSegment | scripts/wordlists/extract_paths_from_ffuf.py:13-27 | `/seg` followed by nothing, by `/…`, by `?…` or by `#…` gives `seg` when it has at most 80 characters, and otherwise the empty token |
| FfufPaths.SchemeLength | scripts/wordlists/extract_paths_from_ffuf.py:10 | the scheme, when present, is `http` or `https` in any case and is followed by `://` |
| FfufPaths.PathGroupOf | scripts/wordlists/extract_paths_from_ffuf.py:10 | `(?P<path>/.*)$` captures the whole rest of the line, with or without a final newline |
| FfufPaths.MatchUrl | scripts/wordlists/extract_paths_from_ffuf.py:39 | `URL_RE.match`: a match has an http(s) scheme in any case, a non-empty authority without `/`, and a path that starts with `/`; MatchUrlSound and MatchUrlComplete give the whole shape in both directions |
| FfufPaths.MatchUrlSound | scripts/wordlists/extract_paths_from_ffuf.py:10 | every match has an http(s) scheme, a non-empty authority without `/`, and a path that starts with `/` and has no newline; together they rebuild the URL, up to one final newline |
| FfufPaths.MatchUrlComplete | scripts/wordlists/extract_paths_from_ffuf.py:10 | every URL of that shape matches, and the match gives back exactly its scheme, authority and path |
| FfufPaths.UrlToken | scripts/wordlists/extract_paths_from_ffuf.py:38-42 | the token of one `url` has at most 80 characters and contains no `/`, `?` or `#`; UrlTokenFirstSegment shows it is the first path segment |
| FfufPaths.TokensStep | scripts/wordlists/extract_paths_from_ffuf.py:37-44 | each further result adds its token to the set when the token is non-empty, and adds nothing else |
| FfufPaths.TokensClean | scripts/wordlists/extract_paths_from_ffuf.py:42-44 | every collected token is non-empty, at most 80 characters long, and free of `/`, `?` and `#` |
| FfufPaths.CollectTokens | scripts/wordlists/extract_paths_from_ffuf.py:36-44 | the loop collects exactly the non-empty tokens of the `url` values |
| FfufPaths.ExtractPaths | scripts/wordlists/extract_paths_from_ffuf.py:30-47 | with no file argument the exit code is 2 and nothing is printed; otherwise the exit code is 0 and the output lists the token set strictly sorted, each token clean |
| FfufPaths.UrlTokenFirstSegment | scripts/wordlists/extract_paths_from_ffuf.py:24-27 | the token of `scheme://host/seg…` is its first path segment `seg`, not its last segment |
| CvssAllowlist.PathSelected | scripts/nuclei/generate_cvss10_allowlist.py:42-47 | the path filters, every test as written; PathSelectedIff reduces them to the first two |
| CvssAllowlist.ExcludedPrefixesUnreachable | scripts/nuclei/generate_cvss10_allowlist.py:42-47 | a path that passes the `http/cves/` filter can never start with `headless/`, `code/`, `file/`, `network/` or `ssl/`, so those checks never reject anything |
| CvssAllowlist.PathSelectedIff | scripts/nuclei/generate_cvss10_allowlist.py:42-47 | a path is kept if and only if it starts with `http/cves/` and contains no `/headless/` |
| CvssAllowlist.Run | scripts/nuclei/generate_cvss10_allowlist.py:21 | a greedy `\s*` or `0+` run takes only characters of its class and stops at the end of the text or at the first character outside it |
| CvssAllowlist.ValueEnd | scripts/nuclei/generate_cvss10_allowlist.py:21 | a value found by the scan is `10` or `10.` followed by one or more zeros |
| CvssAllowlist.CvssSpec | scripts/nuclei/generate_cvss10_allowlist.py:21 | the language of `CVSS_RE` under `re.MULTILINE` and `re.IGNORECASE`: some line start, `\s*`, the key, `\s*`, `:`, `\s*`, the value group and `\s*` up to a line end; CvssSearchCorrect relates it to the search |
| CvssAllowlist.SearchFrom | scripts/nuclei/generate_cvss10_allowlist.py:21 | the search the engine performs from one position on: try a match at each line start, each `\s*` taking its whole run; SearchFromSound and SearchFromComplete state what it finds |
| CvssAllowlist.CvssSearch | scripts/nuclei/generate_cvss10_allowlist.py:54 | `CVSS_RE.search(s)` is the search from position 0; CvssSearchCorrect proves it equivalent to CvssSpec |
| CvssAllowlist.CvssSearchCorrect | scripts/nuclei/generate_cvss10_allowlist.py:21 | the position-by-position search succeeds if and only if some line, with `re.MULTILINE` and `re.IGNORECASE`, holds `\s*cvss-score\s*:\s*10(\.0+)?\s*` |
| CvssAllowlist.SearchFromSound | scripts/nuclei/generate_cvss10_allowlist.py:21 | a successful search from a position gives a match at or after that position |
| CvssAllowlist.SearchFromComplete | scripts/nuclei/generate_cvss10_allowlist.py:21 | any match at or after a position is found by the search from there |
| CvssAllowlist.OneLineScore | scripts/nuclei/generate_cvss10_allowlist.py:21 | the single line `cvss-score: v` matches if and only if `v` is `10`, or `10.` followed by zeros |
| CvssAllowlist.ScoreValueExamples | scripts/nuclei/generate_cvss10_allowlist.py:8 | `10`, `10.0` and `10.000` are scores of 10; `10.`, `9.8`, `10.5` and `100` are not |
| CvssAllowlist.CvssRejectsOtherScores | scripts/nuclei/generate_cvss10_allowlist.py:21 | the lines `cvss-score: 10.`, `9.8`, `10.5` and `100` do not match |
| CvssAllowlist.CvssAcceptsAnyCase | scripts/nuclei/generate_cvss10_allowlist.py:21 | the key matches in any case, and spaces may come before the colon |
| CvssAllowlist.CvssAcceptsLaterLine | scripts/nuclei/generate_cvss10_allowlist.py:21 | the score line may come after other lines |
| CvssAllowlist.CvssAcceptsAcrossLineBreak | scripts/nuclei/generate_cvss10_allowlist.py:21 | `\s*` after the colon also takes a newline, so the value may sit on the next line |
| CvssAllowlist.ChosenStep | scripts/nuclei/generate_cvss10_allowlist.py:38-57 | each further template adds its path exactly when it passes the path filter, can be read, and matches |
| CvssAllowlist.ChosenOrderFree | scripts/nuclei/generate_cvss10_allowlist.py:38 | the selected set does not depend on the order the walk yields templates in |
| CvssAllowlist.Serialise | scripts/nuclei/generate_cvss10_allowlist.py:61 | the file is empty exactly when nothing is selected, and otherwise ends with a newline |
| CvssAllowlist.SerialiseLines | scripts/nuclei/generate_cvss10_allowlist.py:61 | reading the written file back line by line gives the selected list |
| CvssAllowlist.SerialiseCount | scripts/nuclei/generate_cvss10_allowlist.py:61-63 | the file has one newline per selected path, so the printed `count` is its number of lines |
| CvssAllowlist.GenerateAllowlist | scripts/nuclei/generate_cvss10_allowlist.py:33-63 | a missing root ends with the not-found exit; otherwise the file holds the chosen paths strictly sorted, one per line, and the count is their number |
| CvssAllowlist.AllowlistOrderFree | scripts/nuclei/generate_cvss10_allowlist.py:59-63 | two walks over the same templates, in any order, write the same file and print the same count |
| JsExtract.UnitsNoSlash | scripts/wordlists/extract_from_js.py:10 | text made of `[A-Za-z0-9._~-]` and `%HH` units contains no `/` |
| JsExtract.PathShapeSplit | scripts/wordlists/extract_from_js.py:10 | the text after the leading `/` fits the pattern if and only if splitting it at `/` gives at most 7 pieces, each of 1 to 64 units |
| JsExtract.UnitAt | scripts/wordlists/extract_from_js.py:10 | one unit of the segment class, when one starts at a position, lies within the text |
| JsExtract.ReachUnits | scripts/wordlists/extract_from_js.py:10 | the unit-by-unit walk from p to q reads `s[p..q]` as exactly n units |
| JsExtract.GreedyReach | scripts/wordlists/extract_from_js.py:10 | the greedy `{1,64}` repetition takes between one unit and the limit whenever a unit starts there |
| JsExtract.Backoff | scripts/wordlists/extract_from_js.py:10 | backtracking inside the last segment finds an end after its start where the negative lookahead `(?![A-Za-z0-9_])` holds, and that end lies no earlier than any boundary after 1 to n units where the lookahead holds; BackoffReach adds that the end is itself such a boundary |
| JsExtract.BackoffReach | scripts/wordlists/extract_from_js.py:10 | the end that backtracking finds still lies after 1 to 64 units |
| JsExtract.PathEnd | scripts/wordlists/extract_from_js.py:10 | the end of a path match comes after its first unit and satisfies the lookahead |
| JsExtract.PathEndShape | scripts/wordlists/extract_from_js.py:10 | the text the path scan covers has the pattern's segment structure |
| JsExtract.EndpointMatch | scripts/wordlists/extract_from_js.py:10 | `ENDPOINT_RE` tried at one position: a match found there ends after that position and within the text; EndpointMatchSound and EndpointMatchLongest give its shape and maximality |
| JsExtract.EndpointMatchSound | scripts/wordlists/extract_from_js.py:10 | a match at i has no word character before it or after it, and has the endpoint shape: a `/` followed by 1 to 7 segments of 1 to 64 units |
| JsExtract.EndpointMatchLongest | scripts/wordlists/extract_from_js.py:10 | whenever some end e makes `s[i..e]` a match of the language, the engine matches at i and ends no earlier than e, so it returns the longest match |
| JsExtract.PathLongest | scripts/wordlists/extract_from_js.py:10 | the greedy path scan reaches at least as far as every valid end |
| JsExtract.EndpointScan | scripts/wordlists/extract_from_js.py:37 | `ENDPOINT_RE.finditer`: try each position, and after a match resume at its end; EndpointScanSound and EndpointScanCovers state what it yields |
| JsExtract.EndpointScanSound | scripts/wordlists/extract_from_js.py:36-37 | every token that `finditer` yields is the text of a match at its start position |
| JsExtract.EndpointScanCovers | scripts/wordlists/extract_from_js.py:36-37 | every position where a match of the pattern starts lies inside a match that `finditer` yields, since a scan resumes only at a match's end |
| JsExtract.NameEnd | scripts/wordlists/extract_from_js.py:11 | every character the name run passes over is in `[A-Za-z0-9_-]`, and the run stops at the end of the text or at a character outside that class |
| JsExtract.ParamAt | scripts/wordlists/extract_from_js.py:11 | `PARAM_RE` tried at one position: a match starts with `?` or `&` and ends at an `=` at least three characters on; ParamAtIff gives the pattern in both directions |
| JsExtract.ParamAtIff | scripts/wordlists/extract_from_js.py:11 | the scan matches `[?&]name=` at i, ending at k, if and only if the text there is `?` or `&`, a name of 2 to 61 characters that starts with a letter or `_`, then `=` |
| JsExtract.ParamScan | scripts/wordlists/extract_from_js.py:42 | `PARAM_RE.finditer`: try each position, and after a match resume after its `=`; ParamScanSound, ParamScanComplete and ParamsExact state what it yields |
| JsExtract.ParamScanSound | scripts/wordlists/extract_from_js.py:41-42 | every name that `finditer` yields comes from a match of `PARAM_RE` |
| JsExtract.ParamScanComplete | scripts/wordlists/extract_from_js.py:41-42 | every match of `PARAM_RE` in the text is yielded by `finditer` |
| JsExtract.ParamsExact | scripts/wordlists/extract_from_js.py:41-43 | the names collected from one text are exactly the names of all `PARAM_RE` matches in it |
| JsExtract.LastIndex | scripts/wordlists/extract_from_js.py:24 | the last index of a character holds that character, no later index does, and there is none when the character is absent |
| JsExtract.Suffix | scripts/wordlists/extract_from_js.py:24 | a suffix is a proper tail of the file name |
| JsExtract.WantedExtension | scripts/wordlists/extract_from_js.py:24 | each of the four wanted extensions is a `.` followed by characters that contain no `.` |
| JsExtract.SuffixIs | scripts/wordlists/extract_from_js.py:24 | the lower-cased suffix is a given extension if and only if the name is longer than it and ends with it in any case |
| JsExtract.Selected | scripts/wordlists/extract_from_js.py:24 | a regular file whose lower-cased suffix is a wanted extension; SelectedIff restates it on the name alone |
| JsExtract.SelectedIff | scripts/wordlists/extract_from_js.py:24 | an entry is read if and only if it is a regular file whose name ends in `.js`, `.mjs`, `.cjs` or `.html` in any case, after at least one other character |
| JsExtract.Filter | scripts/wordlists/extract_from_js.py:22-25 | the texts of the entries that pass the test, in walk order; FilterExact gives membership in both directions |
| JsExtract.Files | scripts/wordlists/extract_from_js.py:21-27 | the files read: a directory's selected entries, or the single path given; DirectoryFiles characterises the directory case |
| JsExtract.FilterExact | scripts/wordlists/extract_from_js.py:22-24 | an item is listed if and only if some entry that passes the filter has it as its text |
| JsExtract.DirectoryFiles | scripts/wordlists/extract_from_js.py:21-27 | the files of a directory are exactly those that are regular files with a wanted suffix, in any case |
| JsExtract.ListFiles | scripts/wordlists/extract_from_js.py:21-27 | the walk collects the wanted files of a directory, or the single path given |
| JsExtract.Harvest | scripts/wordlists/extract_from_js.py:29-43 | the tokens of every readable file, gathered file by file; HarvestUnion gives membership in both directions |
| JsExtract.HarvestUnion | scripts/wordlists/extract_from_js.py:29-43 | a token is collected if and only if some readable file yields it |
| JsExtract.EndpointsOutput | scripts/wordlists/extract_from_js.py:36-40 | every endpoint collected was matched in a readable file, has the endpoint shape, has at most 140 characters, and has no word character on either side |
| JsExtract.EndpointsCovered | scripts/wordlists/extract_from_js.py:36-40 | every position of a readable file where an endpoint match starts lies inside a match of the scan, and that match is collected when it has at most 140 characters |
| JsExtract.ParamsOutput | scripts/wordlists/extract_from_js.py:41-43 | every name collected comes from a `PARAM_RE` match in a readable file |
| JsExtract.ParamsAllFound | scripts/wordlists/extract_from_js.py:41-43 | every `PARAM_RE` match in a readable file has its name collected |
| JsExtract.AddEndpoints | scripts/wordlists/extract_from_js.py:36-40 | the loop adds exactly the endpoints of the text that have at most 140 characters |
| JsExtract.AddParams | scripts/wordlists/extract_from_js.py:41-43 | the loop adds exactly the names that the parameter scan yields |
| JsExtract.CollectFound | scripts/wordlists/extract_from_js.py:29-46 | the loop over the files gives up exactly when the kind is unknown and some file can be read; otherwise it collects every token of every readable file |
| JsExtract.ExtractFromJs | scripts/wordlists/extract_from_js.py:13-49 | fewer than two arguments give exit code 2 and no output; an unknown kind gives exit code 2 exactly when some file can be read; otherwise the exit code is 0 and the output lists every token of every readable file, strictly sorted |
| JsExtract.ReadablePrefix | scripts/wordlists/extract_from_js.py:44-46 | a readable file found early in the list is a readable file of the whole list, which is what the unknown-kind exit depends on |
| PyText.TrimStart | scripts/wordlists/extract_paths_from_ffuf.py:20 | the result is a tail of the string, everything dropped is in the class, and the result starts with a kept character |
| PyText.TrimEnd | scripts/wordlists/extract_paths_from_ffuf.py:20 | the result is a prefix of the string, everything dropped is in the class, and the result ends with a kept character |
| PyText.Strip | scripts/wordlists/extract_paths_from_ffuf.py:14 | `strip()` returns a slice of the input, everything cut on either side is in the class, and the result has no such character at either end |
| PyText.StripEmpty | scripts/wordlists/extract_paths_from_ffuf.py:15 | the stripped string is empty if and only if every character is in the class |
| PyText.StripKeeps | scripts/wordlists/extract_paths_from_ffuf.py:38 | stripping a string with kept characters at both ends changes nothing |
| PyText.Before | scripts/wordlists/extract_paths_from_ffuf.py:18 | `split(c, 1)[0]` is the longest prefix without `c`: it stops at the first `c`, or at the end |
| PyText.Join | scripts/nuclei/generate_cvss10_allowlist.py:61 | `"\n".join(...)`: pieces with one separator between neighbours; SplitJoin and CountJoin state what it gives |
| PyText.Split | scripts/nuclei/generate_cvss10_allowlist.py:61 | reading the written lines back: a split has at least one piece; JoinSplit and SplitJoin make it the inverse of Join |
| PyText.JoinSplit | scripts/wordlists/extract_from_js.py:10 | no piece of a split holds the separator, and joining the pieces gives the string back |
| PyText.SplitJoin | scripts/nuclei/generate_cvss10_allowlist.py:61 | splitting a `join` of pieces without the separator gives the pieces back |
| PyText.CountJoin | scripts/nuclei/generate_cvss10_allowlist.py:61 | joining n pieces without the separator puts n - 1 separators in the result |
| PyText.Lower | scripts/wordlists/extract_from_js.py:24 | `lower()` keeps the length and lower-cases each ASCII capital letter |
| PyOrder.Less | scripts/wordlists/extract_from_js.py:48 | Python's `<` on `str`: lexicographic by code point, a proper prefix first; LessTotal and LessTransitive make it a strict total order |
| PyOrder.LessTotal | scripts/wordlists/extract_from_js.py:48 | Python's string order is total on distinct strings |
| PyOrder.LessTransitive | scripts/wordlists/extract_from_js.py:48 | Python's string order is transitive |
| PyOrder.SortedCard | scripts/nuclei/generate_cvss10_allowlist.py:59-63 | a strictly sorted list has as many items as its set, so `len(sorted(set(...)))` is the number of distinct items |
| PyOrder.SortedList | scripts/nuclei/generate_cvss10_allowlist.py:59 | `sorted(set(...))` lists exactly the set's items in strictly ascending order |
| PyOrder.SortedUnique | scripts/wordlists/extract_paths_from_ffuf.py:45 | a set has only one strictly sorted listing, so the printed output is determined by the set |

## Left out

- File system access is not modelled: `rglob`, `is_dir`, `is_file`, `exists`, `read_text`, `mkdir` and `write_text`. Their results become parameters: the entries of the walk in the order it yields them, a file's text or `None` when reading raised, and whether the root exists. For the allowlist, the written text is returned instead of being written to a file.
- JSON parsing of the ffuf report is not modelled, and neither is the `d.get("results") or []` / `r.get("url") or ""` defaulting. `ExtractPaths` receives the `url` strings directly, with a missing one as `""`. A report that cannot be read or parsed makes the script raise; that path is not modelled.
- `argparse` is not modelled. `GenerateAllowlist` receives the root's existence and the walk. The default root under the home directory is not modelled, and neither is `--out` or the printed output path.
- Writes to stderr (the usage and kind messages) are not modelled. The script's stdout is the returned `lines`, or, for the allowlist, the returned count.
- `errors="ignore"` decoding is not modelled. Texts are sequences of characters that are already decoded.
- PyText.Lower: lower-cases ASCII capitals only, whereas Python's `str.lower()` also lowers other letters. Only two non-ASCII letters lower to something containing ASCII: U+0130 gives `i` plus a combining dot, and the Kelvin sign U+212A gives `k`. Neither can produce `.js`, `.mjs`, `.cjs` or `.html`, so the suffix test decides the same files as the script.
- PyText.MatchesIgnoringCase: `re.IGNORECASE` is modelled for ASCII letters and for `ſ` (U+017F), which Python matches with `s`. It serves the key `cvss-score` of `CVSS_RE` and the scheme `https?` of `URL_RE`. Python also matches `i` with U+0130 `İ` and U+0131 `ı`, and `k` with the Kelvin sign U+212A; neither `i` nor `k` occurs in `cvss-score`, `http` or `https`, so the model matches the same strings as the script.
- JsExtract.Suffix: follows `PurePath.suffix` as in Python 3.12 and earlier, where a name ending in `.` has no suffix. Python 3.13 gives such a name the suffix `.`. No wanted extension is affected.
- `\s` in `CVSS_RE` and `str.strip()` are modelled by `PyText.IsSpace`, the code points for which `str.isspace()` holds.
- CvssAllowlist.SerialiseLines and CvssAllowlist.SerialiseCount: they require that no path contains a newline. A path holding a newline would split into several lines of the file.
- CvssAllowlist.ScoreValueExamples, CvssRejectsOtherScores and the three CvssAccepts lemmas state concrete strings; the general statements are CvssSearchCorrect and OneLineScore.
- The skill scripts under `src/skills/` (port scan, DNS recon, note upload) are not part of this model.
