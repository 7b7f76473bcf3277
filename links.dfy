/** `_get_absolute_urls`: the anchors of a page as absolute URLs, each URL once. */
module Links {
  import opened Wrappers
  import opened Strings

  /** An `<a>` element as the HTML parser reports it: its text and its `href`
      attribute, if it has one. */
  datatype Anchor = Anchor(text: string, href: Option<string>)

  /** An anchor text with the absolute URL it points to. */
  datatype Link = Link(text: string, url: string)

  /** `os.path.join(base, rel)` on POSIX for two components. */
  function PosixJoin(base: string, rel: string): string {
    if StartsWith(rel, "/") then rel
    else if base == [] || EndsWith(base, "/") then base + rel
    else base + "/" + rel
  }

  /** An absolute second part replaces the base. `Resolve` never takes this branch,
      because it strips the href's leading slashes first. */
  lemma PosixJoinAbsolute(base: string, rel: string)
    requires StartsWith(rel, "/")
    ensures PosixJoin(base, rel) == rel
  {
  }

  /** An href starting with `http` is taken as absolute; any other loses its leading
      slashes and is joined to the page's URL. */
  function Resolve(href: string, base: string): string {
    if StartsWith(href, "http") then href else PosixJoin(base, LStrip(href, IsSlash))
  }

  /** The join never restarts from the href: it is always the base, at most one
      slash, then the href without its leading slashes. */
  lemma ResolveSpec(href: string, base: string)
    ensures StartsWith(href, "http") ==> Resolve(href, base) == href
    ensures !StartsWith(href, "http") ==>
      var rel, r := LStrip(href, IsSlash), Resolve(href, base);
      && StartsWith(r, base)
      && |r| >= |base| + |rel|
      && r[|r| - |rel|..] == rel
      && (if base == [] || EndsWith(base, "/") then |r| == |base| + |rel|
          else |r| == |base| + |rel| + 1 && r[|base|] == '/')
  {
    if !StartsWith(href, "http") {
      var rel := LStrip(href, IsSlash);
      LStripSpec(href, IsSlash);
      assert !StartsWith(rel, "/");
      var r := Resolve(href, base);
      if base == [] || EndsWith(base, "/") {
        assert r == base + rel;
        assert r[..|base|] == base;
        assert r[|r| - |rel|..] == rel;
      } else {
        assert r == base + "/" + rel;
        assert r[..|base|] == base;
        assert r[|r| - |rel|..] == rel;
      }
    }
  }

  /** A root-relative href is joined under the page's own path, not under the site
      root. */
  lemma RootRelativeJoin(page: string, path: string)
    requires page != [] && !EndsWith(page, "/")
    requires path == [] || path[0] != '/'
    ensures Resolve("/" + path, page) == page + "/" + path
  {
    assert ("/" + path)[1..] == path;
    assert LStrip("/" + path, IsSlash) == LStrip(path, IsSlash);
    assert !StartsWith("/" + path, "http");
  }

  /** On `https://x.com/careers`, `/jobs/1` becomes `https://x.com/careers/jobs/1`. */
  lemma RootRelativeUnderPage(page: string, path: string)
    requires page == "https://x.com/careers" && path == "jobs/1"
    ensures Resolve("/" + path, page) == page + "/" + path
  {
    assert !EndsWith(page, "/");
    RootRelativeJoin(page, path);
  }

  /** The link each anchor with an href stands for, in document order, repeats kept. */
  function Resolved(anchors: seq<Anchor>, base: string): seq<Link> {
    if anchors == [] then []
    else
      var init := Resolved(anchors[..|anchors| - 1], base);
      var a := anchors[|anchors| - 1];
      if a.href.None? then init else init + [Link(a.text, Resolve(a.href.value, base))]
  }

  /** Resolving is done anchor by anchor: a split of the page splits the result, and
      an anchor without an href contributes nothing. */
  lemma {:induction false} ResolvedConcat(xs: seq<Anchor>, ys: seq<Anchor>, base: string)
    ensures Resolved(xs + ys, base) == Resolved(xs, base) + Resolved(ys, base)
    decreases |ys|
  {
    if ys == [] {
      assert xs + ys == xs;
    } else {
      var ys' := ys[..|ys| - 1];
      assert (xs + ys)[..|xs + ys| - 1] == xs + ys';
      ResolvedConcat(xs, ys', base);
    }
  }

  lemma ResolvedSingle(a: Anchor, base: string)
    ensures Resolved([a], base) ==
      if a.href.None? then [] else [Link(a.text, Resolve(a.href.value, base))]
  {
    assert [a][..0] == [];
  }

  /** Every anchor with an href has its link in the result. */
  lemma ResolvedComplete(anchors: seq<Anchor>, base: string)
    ensures forall j | 0 <= j < |anchors| && anchors[j].href.Some? ::
      Resolve(anchors[j].href.value, base) in Urls(Resolved(anchors, base))
  {
    forall j | 0 <= j < |anchors| && anchors[j].href.Some?
      ensures Resolve(anchors[j].href.value, base) in Urls(Resolved(anchors, base))
    {
      ResolvedAt(anchors, base, j);
    }
  }

  lemma ResolvedAt(anchors: seq<Anchor>, base: string, j: nat)
    requires j < |anchors| && anchors[j].href.Some?
    ensures Resolve(anchors[j].href.value, base) in Urls(Resolved(anchors, base))
  {
    var a := anchors[j];
    assert anchors == anchors[..j] + ([a] + anchors[j + 1..]);
    ResolvedConcat(anchors[..j], [a] + anchors[j + 1..], base);
    ResolvedConcat([a], anchors[j + 1..], base);
    ResolvedSingle(a, base);
    var r := Resolved(anchors, base);
    var at := |Resolved(anchors[..j], base)|;
    assert r[at] == Link(a.text, Resolve(a.href.value, base));
    assert Urls(r)[at] == Resolve(a.href.value, base);
  }

  function Urls(links: seq<Link>): (urls: seq<string>)
    ensures |urls| == |links|
    ensures forall k | 0 <= k < |links| :: urls[k] == links[k].url
  {
    seq(|links|, k requires 0 <= k < |links| => links[k].url)
  }

  /** The script's `found` list: a link is kept unless its URL was already kept. */
  function Dedup(links: seq<Link>): seq<Link> {
    if links == [] then []
    else
      var init := Dedup(links[..|links| - 1]);
      var l := links[|links| - 1];
      if l.url in Urls(init) then init else init + [l]
  }

  /** Index of the first link with URL `u`, or `|links|` if there is none. */
  function FirstWithUrl(links: seq<Link>, u: string): (r: nat)
    ensures r <= |links|
    ensures r < |links| ==> links[r].url == u
    ensures forall j | 0 <= j < r :: links[j].url != u
  {
    if links == [] then 0
    else if links[0].url == u then 0
    else 1 + FirstWithUrl(links[1..], u)
  }

  ghost predicate IsSubsequence(a: seq<Link>, b: seq<Link>)
    decreases |b|
  {
    if a == [] then true
    else if b == [] then false
    else
      || (a[|a| - 1] == b[|b| - 1] && IsSubsequence(a[..|a| - 1], b[..|b| - 1]))
      || IsSubsequence(a, b[..|b| - 1])
  }

  ghost predicate DistinctUrls(links: seq<Link>) {
    forall j, k | 0 <= j < k < |links| :: links[j].url != links[k].url
  }

  /** Every URL of the input is kept. */
  lemma {:induction false} DedupComplete(links: seq<Link>)
    ensures forall j | 0 <= j < |links| :: links[j].url in Urls(Dedup(links))
  {
    if links != [] {
      var init := links[..|links| - 1];
      DedupComplete(init);
      var d := Dedup(init);
      if links[|links| - 1].url !in Urls(d) {
        forall j | 0 <= j < |links|
          ensures links[j].url in Urls(Dedup(links))
        {
          if j < |init| {
            var k :| 0 <= k < |d| && Urls(d)[k] == init[j].url;
            assert Urls(Dedup(links))[k] == links[j].url;
          } else {
            assert Urls(Dedup(links))[|d|] == links[j].url;
          }
        }
      }
    }
  }

  /** No URL is kept twice. */
  lemma {:induction false} DedupDistinct(links: seq<Link>)
    ensures DistinctUrls(Dedup(links))
  {
    if links != [] {
      var init := links[..|links| - 1];
      DedupDistinct(init);
      var d := Dedup(init);
      var l := links[|links| - 1];
      if l.url !in Urls(d) {
        forall j | 0 <= j < |d|
          ensures d[j].url != l.url
        {
          assert Urls(d)[j] == d[j].url;
        }
      }
    }
  }

  /** The kept links appear in the input in the same order. */
  lemma {:induction false} DedupSubsequence(links: seq<Link>)
    ensures IsSubsequence(Dedup(links), links)
  {
    if links != [] {
      var init := links[..|links| - 1];
      DedupSubsequence(init);
      var d := Dedup(init);
      var l := links[|links| - 1];
      if l.url !in Urls(d) {
        var r := d + [l];
        assert r[..|r| - 1] == d;
      }
    }
  }

  /** Each kept link is the first input link with that URL, so it carries that
      link's text. */
  lemma {:induction false} DedupFirst(links: seq<Link>)
    ensures forall k | 0 <= k < |Dedup(links)| ::
      FirstWithUrl(links, Dedup(links)[k].url) < |links|
      && links[FirstWithUrl(links, Dedup(links)[k].url)] == Dedup(links)[k]
  {
    if links != [] {
      var init := links[..|links| - 1];
      DedupFirst(init);
      DedupComplete(init);
      var d := Dedup(init);
      var l := links[|links| - 1];
      forall k | 0 <= k < |Dedup(links)|
        ensures FirstWithUrl(links, Dedup(links)[k].url) < |links|
        ensures links[FirstWithUrl(links, Dedup(links)[k].url)] == Dedup(links)[k]
      {
        var u := Dedup(links)[k].url;
        if k < |d| {
          var f := FirstWithUrl(init, u);
          assert init[f] == d[k] == Dedup(links)[k];
          assert links[f] == init[f];
          var g := FirstWithUrl(links, u);
          assert g <= f;
          assert g == f;
        } else {
          assert Dedup(links)[k] == l;
          assert u !in Urls(d);
          assert forall j | 0 <= j < |init| :: init[j].url != u;
          var g := FirstWithUrl(links, u);
          assert g == |init|;
        }
      }
    }
  }

  /** Two links with different URLs are both kept. */
  lemma DedupPair(x: Link, y: Link)
    requires x.url != y.url
    ensures Dedup([x, y]) == [x, y]
  {
    assert [x, y][..1] == [x];
    assert [x][..0] == [];
    assert Dedup([x]) == [x];
    assert Urls([x]) == [x.url];
  }

  /** A root-relative anchor followed by an absolute one with a different URL give
      two links, in that order. */
  lemma RelativeThenAbsolute(base: string, t1: string, rel: string, t2: string, abs: string)
    requires base != [] && !EndsWith(base, "/")
    requires rel == [] || rel[0] != '/'
    requires StartsWith(abs, "http") && abs != base + "/" + rel
    ensures Dedup(Resolved([Anchor(t1, Some("/" + rel)), Anchor(t2, Some(abs))], base))
         == [Link(t1, base + "/" + rel), Link(t2, abs)]
  {
    var a, b := Anchor(t1, Some("/" + rel)), Anchor(t2, Some(abs));
    assert [a, b] == [a] + [b];
    ResolvedConcat([a], [b], base);
    ResolvedSingle(a, base);
    ResolvedSingle(b, base);
    RootRelativeJoin(base, rel);
    DedupPair(Link(t1, base + "/" + rel), Link(t2, abs));
  }

  /** A worked page: on `https://x.com`, a root-relative `/jobs/1` and an
      absolute `https://x.com/jobs/2` come out as two absolute links, in order. */
  lemma ExtractionExample(base: string, rel: string, abs: string)
    requires base == "https://x.com" && rel == "jobs/1" && abs == base + "/jobs/2"
    ensures Dedup(Resolved([Anchor("A", Some("/" + rel)), Anchor("B", Some(abs))], base))
         == [Link("A", base + "/" + rel), Link("B", abs)]
  {
    assert !EndsWith(base, "/");
    assert StartsWith(abs, "http") by { assert abs[..4] == "http"; }
    assert (base + "/" + rel)[|base| + 6] != abs[|base| + 6];
    RelativeThenAbsolute(base, "A", rel, "B", abs);
  }

  /** What the de-duplicated links of a page satisfy. */
  lemma ExtractedLinksSpec(anchors: seq<Anchor>, base: string)
    ensures var r := Resolved(anchors, base); var links := Dedup(r);
      && DistinctUrls(links)
      && IsSubsequence(links, r)
      && (forall j | 0 <= j < |anchors| && anchors[j].href.Some? ::
            Resolve(anchors[j].href.value, base) in Urls(links))
      && (forall k | 0 <= k < |links| ::
            FirstWithUrl(r, links[k].url) < |r| && r[FirstWithUrl(r, links[k].url)] == links[k])
  {
    var r := Resolved(anchors, base);
    DedupDistinct(r);
    DedupSubsequence(r);
    DedupComplete(r);
    DedupFirst(r);
    ResolvedComplete(anchors, base);
  }

  /** `_get_absolute_urls(content, base_url)` over the parsed anchors of `content`. */
  method AbsoluteUrls(anchors: seq<Anchor>, base: string) returns (links: seq<Link>)
    ensures links == Dedup(Resolved(anchors, base))
    ensures DistinctUrls(links)
    ensures IsSubsequence(links, Resolved(anchors, base))
    ensures forall j | 0 <= j < |anchors| && anchors[j].href.Some? ::
      Resolve(anchors[j].href.value, base) in Urls(links)
    ensures var r := Resolved(anchors, base);
      forall k | 0 <= k < |links| ::
        FirstWithUrl(r, links[k].url) < |r| && r[FirstWithUrl(r, links[k].url)] == links[k]
  {
    var found: seq<string> := [];
    links := [];
    for i := 0 to |anchors|
      invariant links == Dedup(Resolved(anchors[..i], base))
      invariant found == Urls(links)
    {
      assert anchors[..i + 1][..i] == anchors[..i];
      var a := anchors[i];
      if a.href.None? {
        continue;
      }
      var href := a.href.value;
      if !StartsWith(href, "http") {
        href := PosixJoin(base, LStrip(href, IsSlash));
      }
      if href in found {
        continue;
      }
      found := found + [href];
      links := links + [Link(a.text, href)];
    }
    assert anchors[..|anchors|] == anchors;
    ExtractedLinksSpec(anchors, base);
  }
}
