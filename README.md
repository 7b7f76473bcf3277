# Career-page scraper core, in Dafny

This project models the sequential logic of `scripts/restructure.py`, the script that
scrapes company career pages into Markdown. It also proves properties of that model.
The browser, the HTML parser, the regular-expression engine and the file system are
replaced by abstract inputs:

- **Cache keys** (`CacheKeys`). A URL becomes the relative path of its cache file. Every
  occurrence of `https://` is removed, then every occurrence of `http://`. This is a
  replace-all, not a prefix strip. Then `index.html` is appended after a trailing `/`,
  and `.html` is appended when the key does not already end in it.
- **Content cache** (`ContentCache`). The cache directory is a class holding a
  `map<string, string>` from key to file text. `Browser` stands for the headless browser:
  a fixed page function plus a counter of renders. `Lookup` is the pure specification
  of one `get_content` call, and `Cache.GetContent` is proved against it.
- **Link extraction** (`Links`). The parsed `<a>` elements come in as a sequence of
  anchors, each with its text and an optional href. `Resolve` absolutises one href.
  `Resolved` is the per-anchor result with repeats kept. `Dedup` is the `found` list,
  which keeps the first link for each URL. `AbsoluteUrls` is the loop itself.
- **Companies** (`Companies`):
  - `SafeName` is the file-name form of a company name.
  - `ParseLine`, `LoadCompanies` and `GetCompanies` read the company list. The generator
    is modelled as the prefix it yields plus the exception message, if any.
  - `Matching`, `SelectJobs` and `GetJobs` implement `get_jobs`.
  - `Markdown` and `SavedFile` are the text and the file name that `save` would produce
    if its job loop ran.
- **Strings** (`Strings`). These are the Python `str` operations the script uses:
  `startswith`, `endswith`, `replace`, `split` on one character, `lstrip` and `strip`.
  `strip` is modelled as a right strip after a left strip; the script never calls
  `rstrip` on its own. `strip` uses the full `str.isspace` character set.

Things the code does that a reader might not expect. Each one is modelled as written:

- Scheme text is removed wherever it occurs, so `http://`, `https://` and a bare
  address share one cache file (`CacheKeys.SchemeIndependent`, `ContentCache.SchemesShareEntry`).
  A page fetched over one scheme is then served for the other.
- A root-relative href is joined under the page URL, not under the site root
  (`Links.RootRelativeUnderPage`).
- Any href that starts with `http` counts as absolute, including values such as
  `httpdocs/a`.
- Every leading `/` of a relative href is dropped (`lstrip("/")`), not just one.
- `main` only lists the jobs. It never calls `save`, so no Markdown file is written
  by a run.

## Model

| member | source | states |
|---|---|---|
| `Strings.ReplaceAll` | scripts/restructure.py:40 | definition of `str.replace` with a non-empty pattern: a left-to-right, non-overlapping scan; `ReplaceAllAtStart` and `ReplaceAllSkip` are its unfolding equations, `ReplaceAllAbsent` states its fixed points |
| `Strings.ReplaceAllSkip` | scripts/restructure.py:40 | unfolding equation of the definition: `replace` copies a first character that does not begin an occurrence |
| `Strings.Split` | scripts/restructure.py:97 | definition of `str.split` on one character, never empty; characterised by `SplitLength`, `SplitPieces`, `JoinSplit` and `SplitJoin` |
| `Strings.LStrip` | scripts/restructure.py:71 | definition of `str.lstrip`; characterised by `LStripSpec` |
| `Strings.Strip` | scripts/restructure.py:147-149 | definition of `str.strip()`; characterised by `StripSpec`, `StripNoop` and `StripSub` |
| `Strings.ReplaceAllAtStart` | scripts/restructure.py:40 | unfolding equation of the definition: `replace` replaces an occurrence at the start and resumes the scan after it |
| `Strings.ReplaceAllAbsent` | scripts/restructure.py:40 | `replace` leaves a string without the pattern unchanged |
| `Strings.SplitLength` | scripts/restructure.py:143-144 | `split(sep)` yields one more piece than there are separators |
| `Strings.SplitPieces` | scripts/restructure.py:97 | no piece of `split(sep)` contains the separator |
| `Strings.JoinSplit` | scripts/restructure.py:143 | joining the pieces of `split` with the separator gives back the line |
| `Strings.SplitJoin` | scripts/restructure.py:143 | splitting a join of separator-free pieces gives back the pieces |
| `Strings.CountZero` | scripts/restructure.py:94 | `"/" not in name` holds exactly when the name has no slash |
| `Strings.CountConcat` | scripts/restructure.py:122-127 | occurrence counts add up over concatenation |
| `Strings.LStripSpec` | scripts/restructure.py:71 | `lstrip("/")` drops exactly the leading run of slashes |
| `Strings.RStripSpec` | scripts/restructure.py:147-149 | `rstrip` drops exactly the trailing run of whitespace |
| `Strings.StripSpec` | scripts/restructure.py:147-149 | `strip()` returns the input minus its surrounding whitespace, with no whitespace left at either end |
| `Strings.StripNoop` | scripts/restructure.py:147-149 | `strip()` leaves a string without surrounding whitespace unchanged |
| `Strings.StripSub` | scripts/restructure.py:147-149 | `strip()` adds no character |
| `CacheKeys.StripSchemes` | scripts/restructure.py:40 | definition of the scheme removal; characterised by `SchemeIndependent` |
| `CacheKeys.AddSuffix` | scripts/restructure.py:41-44 | definition of the suffix rules; characterised by `CacheKeyShape` |
| `CacheKeys.CacheKey` | scripts/restructure.py:40-44 | definition of the cache key; characterised by `CacheKeyShape`, `SchemeIndependent` and the `KeyOf…` lemmas |
| `CacheKeys.CacheKeyShape` | scripts/restructure.py:40-44 | every key ends in `.html`; a scheme-free key already ending in `.html` is kept; a trailing `/` gets `index.html`; anything else gets `.html` |
| `CacheKeys.SchemeIndependent` | scripts/restructure.py:40 | a leading `https://` or `http://` does not change the key |
| `CacheKeys.KeyOfPlainPath` | scripts/restructure.py:40-44 | a scheme-free path ending in `.html` is its own key |
| `CacheKeys.KeyOfDirectoryUrl` | scripts/restructure.py:40-42 | `http(s)://` + a path ending in `/` maps to that path + `index.html` |
| `CacheKeys.KeyOfPageUrl` | scripts/restructure.py:40-44 | `http(s)://` + a path ending in neither `/` nor `.html` maps to that path + `.html` |
| `CacheKeys.CacheKeyExamples` | scripts/restructure.py:40-44 | `https://x.com/careers/` maps to `x.com/careers/index.html` and `https://x.com/careers` maps to `x.com/careers.html` |
| `ContentCache.Browser.constructor` | scripts/restructure.py:19-33 | the browser starts with no renders |
| `ContentCache.Browser.Render` | scripts/restructure.py:19-33 | a render returns the page for the URL and counts one browser session |
| `ContentCache.Lookup` | scripts/restructure.py:45-59 | definition of one `get_content` call on the cache contents; characterised by `LookupSpec` and `SecondLookupHits` |
| `ContentCache.LookupSpec` | scripts/restructure.py:45-59 | a hit returns the stored text and changes nothing; a miss returns the rendered page, stores it under the URL's key and keeps every other entry |
| `ContentCache.SecondLookupHits` | scripts/restructure.py:45-59 | asking again for a URL with the same key is a hit that returns the first call's content |
| `ContentCache.SchemesShareEntry` | scripts/restructure.py:40-49 | after an `http://` fetch, the `https://` form of the address is a hit |
| `ContentCache.Cache.constructor` | scripts/restructure.py:45-49 | the cache starts with the files earlier runs stored |
| `ContentCache.Cache.GetContent` | scripts/restructure.py:36-59 | result, new entries and render count are those of `Lookup` on the old entries |
| `ContentCache.Cache.GetContentTwice` | scripts/restructure.py:45-59 | two calls for one URL both return the first lookup's content; the cache ends as that lookup leaves it; the browser renders once on a miss and not at all on a hit |
| `Links.PosixJoin` | scripts/restructure.py:71 | definition of POSIX `os.path.join` of two parts, an absolute second part replacing the first; characterised by `PosixJoinAbsolute`, `ResolveSpec` and `RootRelativeJoin` |
| `Links.PosixJoinAbsolute` | scripts/restructure.py:71 | an absolute second part replaces the base; `Resolve` never reaches this case |
| `Links.Resolve` | scripts/restructure.py:70-71 | definition of the href resolution; characterised by `ResolveSpec` and `RootRelativeJoin` |
| `Links.Resolved` | scripts/restructure.py:66-71 | definition of the resolved links of a page; characterised by `ResolvedConcat`, `ResolvedSingle` and `ResolvedComplete` |
| `Links.Dedup` | scripts/restructure.py:72-75 | definition of the `found` filter; characterised by `DedupComplete`, `DedupDistinct`, `DedupSubsequence` and `DedupFirst` |
| `Links.ResolveSpec` | scripts/restructure.py:70-71 | an `http…` href is kept; any other href is the base, then at most one `/`, then the href without leading slashes |
| `Links.RootRelativeJoin` | scripts/restructure.py:70-71 | on a page URL not ending in `/`, `/` + path resolves to the page URL, `/`, path |
| `Links.RootRelativeUnderPage` | scripts/restructure.py:70-71 | `/jobs/1` on page `https://x.com/careers` resolves to `https://x.com/careers/jobs/1` |
| `Links.ResolvedConcat` | scripts/restructure.py:66-71 | anchors resolve one by one, so a split of the page splits the result |
| `Links.ResolvedSingle` | scripts/restructure.py:67-71 | an anchor without an href contributes nothing; one with an href contributes its text and resolved URL |
| `Links.ResolvedComplete` | scripts/restructure.py:66-71 | every anchor with an href has its resolved URL in the result |
| `Links.FirstWithUrl` | scripts/restructure.py:72-74 | finds the first link with a given URL, or the length when there is none |
| `Links.DedupComplete` | scripts/restructure.py:72-75 | every input URL is kept |
| `Links.DedupDistinct` | scripts/restructure.py:72-75 | no URL is kept twice |
| `Links.DedupSubsequence` | scripts/restructure.py:72-75 | the kept links are a subsequence of the input, in order |
| `Links.DedupFirst` | scripts/restructure.py:72-75 | each kept link is the first input link with that URL, and keeps its text |
| `Links.DedupPair` | scripts/restructure.py:72-75 | two links with different URLs are both kept, in order |
| `Links.RelativeThenAbsolute` | scripts/restructure.py:62-75 | a root-relative anchor and then an absolute anchor with a different URL give two links, in that order |
| `Links.ExtractedLinksSpec` | scripts/restructure.py:62-75 | the de-duplicated links of a page have distinct URLs, come in document order, cover every resolved href and carry the first text seen for each URL |
| `Links.ExtractionExample` | scripts/restructure.py:62-75 | on `https://x.com`, `/jobs/1` and `https://x.com/jobs/2` give the two absolute links, in order |
| `Links.AbsoluteUrls` | scripts/restructure.py:62-75 | the loop's output is the de-duplicated resolved links: URLs pairwise distinct, in document order, every resolved href present, each paired with the first text seen |
| `Companies.SafeName` | scripts/restructure.py:93-101 | definition of `safe_name`; characterised by `SafeNameSpec` and `SafeNameOfPair` |
| `Companies.SafeNameSpec` | scripts/restructure.py:93-101 | no slash gives the name unchanged; success exactly when there is at most one slash; a successful result has no slash |
| `Companies.SafeNameOfPair` | scripts/restructure.py:97-101 | `A/B` becomes `A (B)` |
| `Companies.SafeNameExamples` | scripts/restructure.py:93-101 | `Foo` gives `Foo`, `Foo/Bar` gives `Foo (Bar)`, `Foo/Bar/Baz` fails |
| `Companies.ParseLine` | scripts/restructure.py:143-149 | definition of reading one line; characterised by `ParseLineSpec` and `ParseLineRoundTrip` |
| `Companies.ParseLineSpec` | scripts/restructure.py:143-149 | a line is accepted exactly when it has three commas; the name is the text before the first comma, taken verbatim; the other fields are comma-free and stripped |
| `Companies.ParseCsvLine` | scripts/restructure.py:143-149 | a line joined from comma-free fields parses to the name plus the three stripped fields |
| `Companies.StrippedFieldsKept` | scripts/restructure.py:147-149 | stripping leaves fields without surrounding whitespace unchanged |
| `Companies.ParseLineRoundTrip` | scripts/restructure.py:143-150 | writing a company as a list line and parsing it gives the company back |
| `Companies.LoadCompanies` | scripts/restructure.py:138-150 | definition of what `get_companies` yields and whether it raises; characterised by `StopLine`, `LoadCompaniesSpec` and `SentinelEndsList` |
| `Companies.StopLine` | scripts/restructure.py:140-145 | the index where reading stops is the first sentinel or bad line, or the end |
| `Companies.LoadCompaniesSpec` | scripts/restructure.py:138-150 | one company per line before the stop, in order; an `Invalid line` error exactly when the stop is a bad line |
| `Companies.SentinelEndsList` | scripts/restructure.py:141-142 | lines after a `####` line are never read, so their content makes no difference |
| `Companies.GetCompanies` | scripts/restructure.py:138-150 | the loop with its early returns produces what `LoadCompanies` specifies |
| `Companies.Matching` | scripts/restructure.py:112-114 | definition of the pattern filter; characterised by `MatchingSpec` and `MatchingConcat` |
| `Companies.MatchingSpec` | scripts/restructure.py:112-114 | the kept links are a subsequence of the links, all match, and every matching link is kept |
| `Companies.MatchingConcat` | scripts/restructure.py:112-114 | the filter decides link by link, so filtering a concatenation concatenates the filtered parts |
| `Companies.SubsequenceDistinct` | scripts/restructure.py:112-114 | filtering links with distinct URLs keeps them distinct |
| `Companies.SelectJobs` | scripts/restructure.py:112-114 | the loop yields a job for each matching link, in order |
| `Companies.GetJobs` | scripts/restructure.py:103-114 | an empty careers URL or pattern gives no jobs and no fetch; otherwise the cache is consulted once and the jobs are the matching de-duplicated links of the page, with pairwise distinct URLs |
| `Companies.Heading` | scripts/restructure.py:122-125 | definition of the heading text; characterised by `HeadingLines` |
| `Companies.JobLine` | scripts/restructure.py:127 | definition of one bullet; characterised by `JobLineLines` |
| `Companies.Markdown` | scripts/restructure.py:122-127 | definition of the page text, built as the loop appends; characterised by `MarkdownIsHeadingAndBullets` and `MarkdownLines` |
| `Companies.HeadingLines` | scripts/restructure.py:122-125 | the heading spans three lines |
| `Companies.JobLineLines` | scripts/restructure.py:127 | each job adds one line |
| `Companies.MarkdownLines` | scripts/restructure.py:122-127 | the text starts with the heading and has `3 + jobs` line breaks when no field holds one |
| `Companies.MarkdownIsHeadingAndBullets` | scripts/restructure.py:122-127 | the page is the heading followed by bullet k for job k, in order, for every job list |
| `Companies.SavedFile` | scripts/restructure.py:118-128 | definition of the file name and text `save` would produce if its job loop ran; characterised by `SavedFileSpec` |
| `Companies.SavedFileSpec` | scripts/restructure.py:118-128 | if the job loop ran: no careers URL means no file; otherwise the naming step fails exactly when the name has two or more slashes; the file name is the safe name plus `.md`, with no slash |

## Left out

- `_get_uncached_content`: the pyppeteer session, stealth, mouse moves and sleeps. It is modelled as `Browser.Render`, a fixed page function of the URL for the run, plus a call counter. Network and navigation failures are not modelled.
- HTML parsing with BeautifulSoup: `GetJobs` takes the parser as a function from page text to anchors, and `AbsoluteUrls` takes the anchors directly.
- `re.match`: the pattern match is an uninterpreted function `matches(regex, url)`. No regular-expression engine is modelled, so which URLs a given pattern accepts is left open.
- The file system:
  - creating the cache and output directories;
  - `os.path.join(CACHE_DIR, key)`;
  - `os.makedirs`;
  - newline translation when a cache file is read back in text mode;
  - clashes between a cache file and a cache directory of the same name;
  - the `rmtree`/`mkdir` in `main`;
  - opening `companies.csv`, which becomes the sequence of its lines;
  - the write in `save`.
- `Company.get_jobs` and `get_companies` are generators. They are modelled as running to completion: `GetJobs` fetches when called, not when first iterated, and `LoadCompanies` returns the yielded prefix together with the error.
- `async`/`await` and the event loop: everything runs sequentially, in the same order.
- `main`'s loop that prints every job, and the `print` calls: output to the console is not modelled.
- `Companies.SavedFile`: `get_jobs` is an async generator, and `save` iterates it with a plain `for` at line 126. As written, `save` therefore raises `TypeError` whenever the careers URL is non-empty and the name is accepted. By then line 121 has already created or truncated `<safe name>.md`, so the file is left empty. The model instead takes the job list as a parameter and gives the file name and text the save would produce if that loop ran. Nothing calls `save`.
- `__str__`/`__unicode__` formatting, and the unused `fake_useragent` instance.
- `scripts/link_checker.py` is not part of this model. It is HTTP requests plus a library regex over a README.
- `ContentCache.Lookup`: cache entries are told apart by the key string, while the script asks the file system whether `os.path.join(CACHE_DIR, key)` exists. Keys that differ as strings but name one file are separate entries in the model: `x.com//jobs.html` and `x.com/./jobs.html`, keys with `..`, keys that differ only in case on a case-insensitive volume, and keys starting with `/` that escape the cache directory. `LookupSpec`'s "fetched exactly when the key is absent" is therefore about string keys.
- `Strings.ReplaceAll`: only non-empty patterns are modelled. The script replaces only the two scheme strings.
