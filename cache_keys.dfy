/** How `get_content` turns a URL into the relative path of its cache file. */
module CacheKeys {
  import opened Strings

  /** `url.replace("https://", "").replace("http://", "")`: every occurrence, not only a prefix. */
  function StripSchemes(url: string): string {
    ReplaceAll(ReplaceAll(url, "https://", ""), "http://", "")
  }

  /** The two suffix rules, applied in order to the scheme-free key. */
  function AddSuffix(key: string): string {
    var k := if EndsWith(key, "/") then key + "index.html" else key;
    if EndsWith(k, ".html") then k else k + ".html"
  }

  /** The cache path of a URL, relative to the cache directory. */
  function CacheKey(url: string): string {
    AddSuffix(StripSchemes(url))
  }

  /** Every key names an `.html` file, and the three shapes of the scheme-free key
      are handled as the script does. */
  lemma CacheKeyShape(url: string)
    ensures EndsWith(CacheKey(url), ".html")
    ensures EndsWith(StripSchemes(url), ".html") ==> CacheKey(url) == StripSchemes(url)
    ensures EndsWith(StripSchemes(url), "/") ==> CacheKey(url) == StripSchemes(url) + "index.html"
    ensures !EndsWith(StripSchemes(url), "/") && !EndsWith(StripSchemes(url), ".html") ==>
              CacheKey(url) == StripSchemes(url) + ".html"
  {
    var key := StripSchemes(url);
    if EndsWith(key, "/") {
      assert key[|key| - 1] == '/';
      assert !EndsWith(key, ".html");
      var k := key + "index.html";
      assert k[|k| - 5..] == ".html";
    } else if !EndsWith(key, ".html") {
      var k := key + ".html";
      assert k[|k| - 5..] == ".html";
    }
  }

  /** A scan over a prefix none of whose positions starts an occurrence copies it. */
  lemma {:induction false} ReplaceAllCopies(p: string, rest: string, pat: string, rep: string)
    requires pat != []
    requires forall i | 0 <= i < |p| :: !StartsWith((p + rest)[i..], pat)
    ensures ReplaceAll(p + rest, pat, rep) == p + ReplaceAll(rest, pat, rep)
  {
    if p != [] {
      assert (p + rest)[0..] == [p[0]] + (p[1..] + rest);
      ReplaceAllSkip(p[0], p[1..] + rest, pat, rep);
      forall i | 0 <= i < |p[1..]|
        ensures !StartsWith((p[1..] + rest)[i..], pat)
      {
        assert (p[1..] + rest)[i..] == (p + rest)[i + 1..];
      }
      ReplaceAllCopies(p[1..], rest, pat, rep);
    } else {
      assert p + rest == rest;
    }
  }

  /** `"http://"` never contains the start of an `"https://"` occurrence. */
  lemma HttpSurvivesHttpsRemoval(rest: string)
    ensures ReplaceAll("http://" + rest, "https://", "") == "http://" + ReplaceAll(rest, "https://", "")
  {
    var p := "http://";
    forall i | 0 <= i < |p|
      ensures !StartsWith((p + rest)[i..], "https://")
    {
      if i == 0 {
        assert (p + rest)[i..][4] == ':';
      } else {
        assert (p + rest)[i..][0] != 'h';
      }
    }
    ReplaceAllCopies(p, rest, "https://", "");
  }

  /** The scheme does not take part in the key: `http://`, `https://` and a bare
      address all share one cache file. */
  lemma SchemeIndependent(rest: string)
    ensures CacheKey("https://" + rest) == CacheKey(rest)
    ensures CacheKey("http://" + rest) == CacheKey(rest)
  {
    ReplaceAllAtStart("https://", "", rest);
    assert "" + ReplaceAll(rest, "https://", "") == ReplaceAll(rest, "https://", "");
    HttpSurvivesHttpsRemoval(rest);
    ReplaceAllAtStart("http://", "", ReplaceAll(rest, "https://", ""));
    assert "" + StripSchemes(rest) == StripSchemes(rest);
  }

  /** A pattern whose first character is absent from `s` does not occur in it. */
  lemma NotOccursWithoutFirst(s: string, pat: string)
    requires pat != [] && pat[0] !in s
    ensures !Occurs(s, pat)
  {
    forall i | 0 <= i <= |s|
      ensures !StartsWith(s[i..], pat)
    {
      if i < |s| && |pat| <= |s[i..]| {
        assert s[i..][..|pat|][0] == s[i];
      }
    }
  }

  /** A scheme-free `.html` path is its own key. */
  lemma KeyOfPlainPath(path: string)
    requires !Occurs(path, "https://") && !Occurs(path, "http://")
    requires EndsWith(path, ".html")
    ensures CacheKey(path) == path
  {
    ReplaceAllAbsent(path, "https://", "");
    ReplaceAllAbsent(path, "http://", "");
    CacheKeyShape(path);
  }

  /** A directory URL maps to the `index.html` inside it. */
  lemma KeyOfDirectoryUrl(rest: string)
    requires !Occurs(rest, "https://") && !Occurs(rest, "http://")
    requires EndsWith(rest, "/")
    ensures CacheKey("https://" + rest) == rest + "index.html"
    ensures CacheKey("http://" + rest) == rest + "index.html"
  {
    ReplaceAllAbsent(rest, "https://", "");
    ReplaceAllAbsent(rest, "http://", "");
    CacheKeyShape(rest);
    SchemeIndependent(rest);
  }

  /** Any other URL not naming an `.html` file gets `.html` appended. */
  lemma KeyOfPageUrl(rest: string)
    requires !Occurs(rest, "https://") && !Occurs(rest, "http://")
    requires !EndsWith(rest, "/") && !EndsWith(rest, ".html")
    ensures CacheKey("https://" + rest) == rest + ".html"
    ensures CacheKey("http://" + rest) == rest + ".html"
  {
    ReplaceAllAbsent(rest, "https://", "");
    ReplaceAllAbsent(rest, "http://", "");
    CacheKeyShape(rest);
    SchemeIndependent(rest);
  }

  /** Two worked keys: `x.com/careers/index.html` and
      `x.com/careers.html`. */
  lemma CacheKeyExamples(site: string)
    requires site == "x.com/careers"
    ensures CacheKey("https://" + site + "/") == site + "/index.html"
    ensures CacheKey("https://" + site) == site + ".html"
  {
    var dir := site + "/";
    assert 'h' !in dir && 'h' !in site;
    NotOccursWithoutFirst(dir, "https://");
    NotOccursWithoutFirst(dir, "http://");
    NotOccursWithoutFirst(site, "https://");
    NotOccursWithoutFirst(site, "http://");
    assert EndsWith(dir, "/");
    KeyOfDirectoryUrl(dir);
    assert "https://" + site + "/" == "https://" + dir;
    assert dir + "index.html" == site + "/index.html";
    assert !EndsWith(site, "/") by { assert site[|site| - 1] != '/'; }
    assert !EndsWith(site, ".html") by { assert site[|site| - 5] != '.'; }
    KeyOfPageUrl(site);
  }
}
