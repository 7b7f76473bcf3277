/** The company list, a company's file name, its job postings and its Markdown page. */
module Companies {
  import opened Wrappers
  import opened Strings
  import opened Links
  import opened ContentCache

  /** One line of the company list. An empty `careersUrl` or `careersRegex` turns
      scraping off for the company. */
  datatype Company = Company(name: string, homepage: string, careersUrl: string, careersRegex: string)

  datatype Job = Job(title: string, url: string)

  // ---------------------------------------------------------------------------
  // Company.safe_name

  /** The company name as a file name: `A/B` becomes `A (B)`; a second slash is fatal. */
  function SafeName(name: string): Result<string> {
    if '/' !in name then Ok(name)
    else
      var parts := Split(name, '/');
      if |parts| != 2 then Err("more than one slash in name")
      else Ok(parts[0] + " (" + parts[1] + ")")
  }

  /** A name with no slash is kept, one slash is accepted and two or more are
      rejected; an accepted name never has a slash left in it. */
  lemma SafeNameSpec(name: string)
    ensures Count(name, '/') == 0 ==> SafeName(name) == Ok(name)
    ensures SafeName(name).Ok? <==> Count(name, '/') <= 1
    ensures SafeName(name).Ok? ==> '/' !in SafeName(name).value
  {
    CountZero(name, '/');
    SplitLength(name, '/');
    if '/' in name {
      var parts := Split(name, '/');
      SplitPieces(name, '/');
      if |parts| == 2 {
        assert '/' !in parts[0] && '/' !in parts[1];
        assert '/' !in parts[0] + " (" + parts[1] + ")";
      }
    }
  }

  /** `A/B` with slash-free `A` and `B` becomes exactly `A (B)`. */
  lemma SafeNameOfPair(a: string, b: string)
    requires '/' !in a && '/' !in b
    ensures SafeName(a + "/" + b) == Ok(a + " (" + b + ")")
  {
    var parts := [a, b];
    assert Join(parts, '/') == a + "/" + b by {
      assert Join(parts[1..], '/') == b;
    }
    SplitJoin(parts, '/');
    assert (a + "/" + b)[|a|] == '/';
  }

  /** Worked names: `Foo` stays, `Foo/Bar` becomes `Foo (Bar)`,
      `Foo/Bar/Baz` is an error. */
  lemma SafeNameExamples(foo: string, bar: string, baz: string)
    requires foo == "Foo" && bar == "Bar" && baz == "Baz"
    ensures SafeName(foo) == Ok(foo)
    ensures SafeName(foo + "/" + bar) == Ok(foo + " (" + bar + ")")
    ensures SafeName(foo + "/" + bar + "/" + baz).Err?
  {
    SafeNameOfPair(foo, bar);
    var three := foo + "/" + bar + "/" + baz;
    SafeNameSpec(three);
    CountConcat(foo + "/" + bar + "/", baz, '/');
    CountConcat(foo + "/" + bar, "/", '/');
    CountConcat(foo + "/", bar, '/');
    CountConcat(foo, "/", '/');
    CountZero(bar, '/');
    CountZero(baz, '/');
    CountZero(foo, '/');
  }

  // ---------------------------------------------------------------------------
  // get_companies

  /** A line starting with `####` ends the list. */
  predicate IsSentinel(line: string) {
    StartsWith(line, "####")
  }

  /** One list line: exactly four comma-separated fields; the name is kept as it
      stands, the other three are stripped. */
  function ParseLine(line: string): Option<Company> {
    var parts := Split(line, ',');
    if |parts| != 4 then None
    else Some(Company(parts[0], Strip(parts[1]), Strip(parts[2]), Strip(parts[3])))
  }

  /** The line of the list that a company stands for. */
  function CsvLine(c: Company): string {
    Join([c.name, c.homepage, c.careersUrl, c.careersRegex], ',')
  }

  predicate NoSurroundingSpace(s: string) {
    s == [] || (!IsSpace(s[0]) && !IsSpace(s[|s| - 1]))
  }

  /** A line is accepted exactly when it has three commas; the name is everything
      before the first comma. */
  lemma ParseLineSpec(line: string)
    ensures ParseLine(line).Some? <==> Count(line, ',') == 3
    ensures ParseLine(line).Some? ==>
      var c := ParseLine(line).value;
      && StartsWith(line, c.name + ",") && ',' !in c.name
      && ',' !in c.homepage && ',' !in c.careersUrl && ',' !in c.careersRegex
      && NoSurroundingSpace(c.homepage) && NoSurroundingSpace(c.careersUrl)
      && NoSurroundingSpace(c.careersRegex)
  {
    SplitLength(line, ',');
    var parts := Split(line, ',');
    if |parts| == 4 {
      SplitPieces(line, ',');
      JoinSplit(line, ',');
      assert line == parts[0] + "," + Join(parts[1..], ',');
      assert (parts[0] + "," + Join(parts[1..], ','))[..|parts[0]| + 1] == parts[0] + ",";
      StripSpec(parts[1]);
      StripSpec(parts[2]);
      StripSpec(parts[3]);
      var c := ParseLine(line).value;
      assert c.homepage == Strip(parts[1]);
      assert ',' !in c.homepage by { StripSub(parts[1], ','); }
      assert ',' !in c.careersUrl by { StripSub(parts[2], ','); }
      assert ',' !in c.careersRegex by { StripSub(parts[3], ','); }
    }
  }

  /** Writing a company as a list line and reading it back gives the company again,
      for comma-free fields whose last three have no surrounding whitespace. */
  lemma ParseLineRoundTrip(c: Company)
    requires ',' !in c.name && ',' !in c.homepage && ',' !in c.careersUrl && ',' !in c.careersRegex
    requires NoSurroundingSpace(c.homepage) && NoSurroundingSpace(c.careersUrl)
    requires NoSurroundingSpace(c.careersRegex)
    ensures ParseLine(CsvLine(c)) == Some(c)
  {
    ParseCsvLine(c);
    StrippedFieldsKept(c);
  }

  lemma ParseCsvLine(c: Company)
    requires ',' !in c.name && ',' !in c.homepage && ',' !in c.careersUrl && ',' !in c.careersRegex
    ensures ParseLine(CsvLine(c)) == Some(Company(c.name, Strip(c.homepage), Strip(c.careersUrl), Strip(c.careersRegex)))
  {
    SplitCsvLine(c);
  }

  lemma StrippedFieldsKept(c: Company)
    requires NoSurroundingSpace(c.homepage) && NoSurroundingSpace(c.careersUrl)
    requires NoSurroundingSpace(c.careersRegex)
    ensures Company(c.name, Strip(c.homepage), Strip(c.careersUrl), Strip(c.careersRegex)) == c
  {
    StripNoop(c.homepage);
    StripNoop(c.careersUrl);
    StripNoop(c.careersRegex);
  }

  lemma SplitCsvLine(c: Company)
    requires ',' !in c.name && ',' !in c.homepage && ',' !in c.careersUrl && ',' !in c.careersRegex
    ensures Split(CsvLine(c), ',') == [c.name, c.homepage, c.careersUrl, c.careersRegex]
  {
    var parts := [c.name, c.homepage, c.careersUrl, c.careersRegex];
    assert forall k | 0 <= k < |parts| :: ',' !in parts[k];
    SplitJoin(parts, ',');
  }

  /** What reading the list produced before it stopped: the companies already
      handed out and, if it stopped on a bad line, the exception message. */
  datatype Loaded = Loaded(companies: seq<Company>, error: Option<string>)

  /** The generator `get_companies` run to completion over the lines of the list. */
  function LoadCompanies(lines: seq<string>): Loaded {
    if lines == [] || IsSentinel(lines[0]) then Loaded([], None)
    else
      match ParseLine(lines[0])
      case None => Loaded([], Some("Invalid line: " + lines[0]))
      case Some(c) =>
        var rest := LoadCompanies(lines[1..]);
        Loaded([c] + rest.companies, rest.error)
  }

  /** Index of the line reading stops at: the first sentinel or bad line, or
      `|lines|` when there is none. */
  function StopLine(lines: seq<string>): (n: nat)
    ensures n <= |lines|
    ensures n < |lines| ==> IsSentinel(lines[n]) || ParseLine(lines[n]).None?
    ensures forall i | 0 <= i < n :: !IsSentinel(lines[i]) && ParseLine(lines[i]).Some?
  {
    if lines == [] || IsSentinel(lines[0]) || ParseLine(lines[0]).None? then 0
    else 1 + StopLine(lines[1..])
  }

  /** One company per line before the stop, in order; an error exactly when the
      stop is a bad line rather than a sentinel or the end of the list. */
  lemma {:induction false} LoadCompaniesSpec(lines: seq<string>)
    ensures var r, n := LoadCompanies(lines), StopLine(lines);
      && |r.companies| == n
      && (forall i | 0 <= i < n :: ParseLine(lines[i]) == Some(r.companies[i]))
      && r.error == (if n < |lines| && !IsSentinel(lines[n]) then Some("Invalid line: " + lines[n]) else None)
  {
    if lines != [] && !IsSentinel(lines[0]) && ParseLine(lines[0]).Some? {
      LoadCompaniesSpec(lines[1..]);
      var r := LoadCompanies(lines);
      var rest := LoadCompanies(lines[1..]);
      forall i | 0 <= i < StopLine(lines)
        ensures ParseLine(lines[i]) == Some(r.companies[i])
      {
        if i > 0 {
          assert r.companies[i] == rest.companies[i - 1];
          assert lines[i] == lines[1..][i - 1];
        }
      }
    }
  }

  /** Nothing after a sentinel line is read: whatever follows it, the result is
      the same, so malformed lines there cause no error. */
  lemma {:induction false} SentinelEndsList(before: seq<string>, sentinel: string, after1: seq<string>, after2: seq<string>)
    requires IsSentinel(sentinel)
    ensures LoadCompanies(before + [sentinel] + after1) == LoadCompanies(before + [sentinel] + after2)
  {
    var l1, l2 := before + [sentinel] + after1, before + [sentinel] + after2;
    if before == [] {
      assert l1[0] == sentinel && l2[0] == sentinel;
    } else {
      assert l1[0] == before[0] && l2[0] == before[0];
      assert l1[1..] == before[1..] + [sentinel] + after1;
      assert l2[1..] == before[1..] + [sentinel] + after2;
      SentinelEndsList(before[1..], sentinel, after1, after2);
    }
  }

  /** `get_companies` over the lines of the list, each with its line terminator. */
  method GetCompanies(lines: seq<string>) returns (companies: seq<Company>, error: Option<string>)
    ensures Loaded(companies, error) == LoadCompanies(lines)
  {
    companies, error := [], None;
    for i := 0 to |lines|
      invariant LoadCompanies(lines) ==
        var rest := LoadCompanies(lines[i..]); Loaded(companies + rest.companies, rest.error)
    {
      assert lines[i..][1..] == lines[i + 1..];
      var line := lines[i];
      if IsSentinel(line) {
        return;
      }
      var parts := Split(line, ',');
      if |parts| != 4 {
        error := Some("Invalid line: " + line);
        return;
      }
      var name, url, careersUrl, careersRegex := parts[0], parts[1], parts[2], parts[3];
      url := Strip(url);
      careersUrl := Strip(careersUrl);
      careersRegex := Strip(careersRegex);
      companies := companies + [Company(name, url, careersUrl, careersRegex)];
    }
  }

  // ---------------------------------------------------------------------------
  // Company.get_jobs

  /** The links whose URL the careers pattern accepts, in order. `matches` stands
      for `re.match(regex, url)` succeeding. */
  function Matching(links: seq<Link>, regex: string, matches: (string, string) -> bool): seq<Link> {
    if links == [] then []
    else
      var init := Matching(links[..|links| - 1], regex, matches);
      var l := links[|links| - 1];
      if matches(regex, l.url) then init + [l] else init
  }

  function ToJobs(links: seq<Link>): (jobs: seq<Job>)
    ensures |jobs| == |links|
    ensures forall k | 0 <= k < |links| :: jobs[k] == Job(links[k].text, links[k].url)
  {
    seq(|links|, k requires 0 <= k < |links| => Job(links[k].text, links[k].url))
  }

  /** The kept links are exactly the accepted ones, in their order. */
  lemma {:induction false} MatchingSpec(links: seq<Link>, regex: string, matches: (string, string) -> bool)
    ensures var m := Matching(links, regex, matches);
      && IsSubsequence(m, links)
      && (forall k | 0 <= k < |m| :: matches(regex, m[k].url))
      && (forall j | 0 <= j < |links| && matches(regex, links[j].url) :: links[j] in m)
  {
    if links != [] {
      var init := links[..|links| - 1];
      MatchingSpec(init, regex, matches);
      var m0 := Matching(init, regex, matches);
      var l := links[|links| - 1];
      if matches(regex, l.url) {
        var m := m0 + [l];
        assert m[..|m| - 1] == m0;
        forall j | 0 <= j < |links| && matches(regex, links[j].url)
          ensures links[j] in m
        {
          if j < |init| { assert links[j] == init[j]; }
        }
      } else {
        forall j | 0 <= j < |links| && matches(regex, links[j].url)
          ensures links[j] in m0
        {
          assert links[j] == init[j];
        }
      }
    }
  }

  /** Filtering is done link by link, so it distributes over concatenation; with
      `MatchingSpec` this fixes how many copies of a repeated link are kept. */
  lemma {:induction false} MatchingConcat(xs: seq<Link>, ys: seq<Link>, regex: string, matches: (string, string) -> bool)
    ensures Matching(xs + ys, regex, matches) == Matching(xs, regex, matches) + Matching(ys, regex, matches)
    decreases |ys|
  {
    if ys == [] {
      assert xs + ys == xs;
    } else {
      var ys' := ys[..|ys| - 1];
      MatchingConcat(xs, ys', regex, matches);
      assert (xs + ys)[..|xs + ys| - 1] == xs + ys';
    }
  }

  /** A subsequence of links with distinct URLs has distinct URLs. */
  lemma {:induction false} SubsequenceDistinct(a: seq<Link>, b: seq<Link>)
    requires IsSubsequence(a, b) && DistinctUrls(b)
    ensures DistinctUrls(a)
    ensures forall k | 0 <= k < |a| :: a[k] in b
    decreases |b|
  {
    if a != [] {
      var b' := b[..|b| - 1];
      assert DistinctUrls(b');
      if a[|a| - 1] == b[|b| - 1] && IsSubsequence(a[..|a| - 1], b') {
        var a' := a[..|a| - 1];
        SubsequenceDistinct(a', b');
        forall k | 0 <= k < |a|
          ensures a[k] in b
        {
          if k < |a'| { assert a[k] == a'[k]; }
        }
        forall j | 0 <= j < |a'|
          ensures a[j].url != a[|a| - 1].url
        {
          assert a[j] == a'[j];
          var i :| 0 <= i < |b'| && b'[i] == a'[j];
          assert b[i] == b'[i];
        }
      } else {
        SubsequenceDistinct(a, b');
      }
    }
  }

  /** The `for` loop of `get_jobs`: a job for each extracted link that matches. */
  method SelectJobs(links: seq<Link>, regex: string, matches: (string, string) -> bool) returns (jobs: seq<Job>)
    ensures jobs == ToJobs(Matching(links, regex, matches))
  {
    jobs := [];
    for i := 0 to |links|
      invariant jobs == ToJobs(Matching(links[..i], regex, matches))
    {
      assert links[..i + 1][..i] == links[..i];
      var l := links[i];
      if matches(regex, l.url) {
        jobs := jobs + [Job(l.text, l.url)];
      }
    }
    assert links[..|links|] == links;
  }

  /** `Company.get_jobs`, with the HTML parser given as `parse` and `re.match` as
      `matches`. No fetch happens when the careers URL or pattern is empty;
      otherwise the careers page comes through the cache, and the jobs are the
      matching links of that page, in page order, each URL once. */
  method GetJobs(c: Company, cache: Cache, parse: string -> seq<Anchor>, matches: (string, string) -> bool)
    returns (jobs: seq<Job>)
    modifies cache, cache.browser
    ensures c.careersUrl == "" || c.careersRegex == "" ==>
      && jobs == []
      && cache.entries == old(cache.entries)
      && cache.browser.renders == old(cache.browser.renders)
    ensures c.careersUrl != "" && c.careersRegex != "" ==>
      var o := Lookup(old(cache.entries), cache.browser.page, c.careersUrl);
      && cache.entries == o.entries
      && cache.browser.renders == old(cache.browser.renders) + (if o.fetched then 1 else 0)
      && jobs == ToJobs(Matching(Dedup(Resolved(parse(o.content), c.careersUrl)), c.careersRegex, matches))
    ensures forall j, k | 0 <= j < k < |jobs| :: jobs[j].url != jobs[k].url
  {
    if c.careersUrl == "" || c.careersRegex == "" {
      return [];
    }
    var content := cache.GetContent(c.careersUrl);
    var links := AbsoluteUrls(parse(content), c.careersUrl);
    jobs := SelectJobs(links, c.careersRegex, matches);
    MatchingSpec(links, c.careersRegex, matches);
    SubsequenceDistinct(Matching(links, c.careersRegex, matches), links);
  }

  // ---------------------------------------------------------------------------
  // Company.save

  /** The page heading: company name, careers link and the postings heading. */
  function Heading(c: Company): string {
    "\n# " + c.name + "\n- [Careers](" + c.careersUrl + ")\n## Job Postings"
  }

  function JobLine(j: Job): string {
    "\n- [" + j.title + "](" + j.url + ")"
  }

  /** The text `save` builds: the heading, then one bullet per job in order. */
  function Markdown(c: Company, jobs: seq<Job>): string {
    if jobs == [] then Heading(c)
    else Markdown(c, jobs[..|jobs| - 1]) + JobLine(jobs[|jobs| - 1])
  }

  /** The file name and text `save` would produce if its job loop ran, as (file name
      in the output directory, text); nothing when there is no careers URL; the
      naming error when `safe_name` fails. */
  function SavedFile(c: Company, jobs: seq<Job>): Result<Option<(string, string)>> {
    if c.careersUrl == "" then Ok(None)
    else
      match SafeName(c.name)
      case Err(msg) => Err(msg)
      case Ok(n) => Ok(Some((n + ".md", Markdown(c, jobs))))
  }

  lemma HeadingLines(c: Company)
    requires '\n' !in c.name && '\n' !in c.careersUrl
    ensures Count(Heading(c), '\n') == 3
  {
    var title, link, tail := "# " + c.name, "- [Careers](" + c.careersUrl + ")", "## Job Postings";
    HeadingPieces(c);
    ThreeLines(title, link, tail);
  }

  lemma HeadingPieces(c: Company)
    ensures Heading(c) == "\n" + ("# " + c.name) + "\n" + ("- [Careers](" + c.careersUrl + ")") + "\n" + "## Job Postings"
  {
  }

  lemma ThreeLines(a: string, b: string, c: string)
    requires '\n' !in a && '\n' !in b && '\n' !in c
    ensures Count("\n" + a + "\n" + b + "\n" + c, '\n') == 3
  {
    CountZero(a, '\n');
    CountZero(b, '\n');
    CountZero(c, '\n');
    CountConcat("\n", a, '\n');
    CountConcat("\n" + a, "\n", '\n');
    CountConcat("\n" + a + "\n", b, '\n');
    CountConcat("\n" + a + "\n" + b, "\n", '\n');
    CountConcat("\n" + a + "\n" + b + "\n", c, '\n');
  }

  lemma JobLineLines(j: Job)
    requires '\n' !in j.title && '\n' !in j.url
    ensures Count(JobLine(j), '\n') == 1
  {
    var bullet := "- [" + j.title + "](" + j.url + ")";
    assert JobLine(j) == "\n" + bullet;
    CountZero(bullet, '\n');
    CountConcat("\n", bullet, '\n');
  }

  /** The page starts with the heading and has one line per job after its three
      heading lines, provided no field holds a line break. */
  lemma {:induction false} MarkdownLines(c: Company, jobs: seq<Job>)
    requires '\n' !in c.name && '\n' !in c.careersUrl
    requires forall k | 0 <= k < |jobs| :: '\n' !in jobs[k].title && '\n' !in jobs[k].url
    ensures StartsWith(Markdown(c, jobs), Heading(c))
    ensures Count(Markdown(c, jobs), '\n') == 3 + |jobs|
  {
    if jobs == [] {
      HeadingLines(c);
    } else {
      var init := jobs[..|jobs| - 1];
      var j := jobs[|jobs| - 1];
      MarkdownLines(c, init);
      var m := Markdown(c, init);
      assert Markdown(c, jobs) == m + JobLine(j);
      assert (m + JobLine(j))[..|Heading(c)|] == m[..|Heading(c)|];
      CountConcat(m, JobLine(j), '\n');
      JobLineLines(j);
    }
  }

  /** The bullets of a job list, built front to back. */
  function Bullets(jobs: seq<Job>): string {
    if jobs == [] then "" else JobLine(jobs[0]) + Bullets(jobs[1..])
  }

  lemma {:induction false} BulletsSnoc(jobs: seq<Job>, j: Job)
    ensures Bullets(jobs + [j]) == Bullets(jobs) + JobLine(j)
  {
    if jobs == [] {
      assert [] + [j] == [j];
    } else {
      assert (jobs + [j])[1..] == jobs[1..] + [j];
      BulletsSnoc(jobs[1..], j);
    }
  }

  /** The page is the heading followed by one bullet per job, job k giving bullet k. */
  lemma {:induction false} MarkdownIsHeadingAndBullets(c: Company, jobs: seq<Job>)
    ensures Markdown(c, jobs) == Heading(c) + Bullets(jobs)
  {
    if jobs != [] {
      var init := jobs[..|jobs| - 1];
      MarkdownIsHeadingAndBullets(c, init);
      BulletsSnoc(init, jobs[|jobs| - 1]);
      assert init + [jobs[|jobs| - 1]] == jobs;
    }
  }

  /** Were the job loop to run: only companies with a careers URL get a file; its
      name is the safe name plus `.md` and holds no slash, so it lands directly in
      the output directory; a name with two slashes aborts the save. */
  lemma SavedFileSpec(c: Company, jobs: seq<Job>)
    ensures c.careersUrl == "" ==> SavedFile(c, jobs) == Ok(None)
    ensures c.careersUrl != "" ==> (SavedFile(c, jobs).Err? <==> Count(c.name, '/') >= 2)
    ensures SavedFile(c, jobs).Ok? && SavedFile(c, jobs).value.Some? ==>
      var (file, text) := SavedFile(c, jobs).value.value;
      && '/' !in file && EndsWith(file, ".md") && text == Markdown(c, jobs)
  {
    SafeNameSpec(c.name);
    if c.careersUrl != "" && SafeName(c.name).Ok? {
      var n := SafeName(c.name).value;
      assert '/' !in n + ".md";
      assert (n + ".md")[|n + ".md"| - 3..] == ".md";
    }
  }
}
