/** `get_content`: a never-expiring cache of rendered pages in front of a headless browser. */
module ContentCache {
  import opened CacheKeys

  /** The headless browser session. What it renders for a URL is outside the model
      (`page`); the model only counts how often it is asked. */
  class Browser {
    const page: string -> string
    var renders: nat

    constructor (page: string -> string)
      ensures this.page == page && renders == 0
    {
      this.page := page;
      renders := 0;
    }

    /** `_get_uncached_content`: one fresh browser session per call. */
    method Render(url: string) returns (html: string)
      modifies this
      ensures html == page(url)
      ensures renders == old(renders) + 1
    {
      html := page(url);
      renders := renders + 1;
    }
  }

  /** What one lookup leaves behind: the content handed back, the cache contents
      afterwards and whether the browser had to be used. */
  datatype Outcome = Outcome(content: string, entries: map<string, string>, fetched: bool)

  /** One `get_content` call on cache contents `entries` (key to file text). */
  function Lookup(entries: map<string, string>, page: string -> string, url: string): Outcome {
    var key := CacheKey(url);
    if key in entries then Outcome(entries[key], entries, false)
    else Outcome(page(url), entries[key := page(url)], true)
  }

  /** A hit hands back the stored text and changes nothing; a miss renders the URL,
      stores the page under the URL's key and leaves every other entry alone. */
  lemma LookupSpec(entries: map<string, string>, page: string -> string, url: string)
    ensures var o := Lookup(entries, page, url);
      && (o.fetched <==> CacheKey(url) !in entries)
      && (!o.fetched ==> o.content == entries[CacheKey(url)] && o.entries == entries)
      && (o.fetched ==> o.content == page(url))
      && o.entries.Keys == entries.Keys + {CacheKey(url)}
      && CacheKey(url) in o.entries && o.entries[CacheKey(url)] == o.content
      && (forall k | k in entries :: o.entries[k] == entries[k])
  {
  }

  /** Asking again for the same URL, or for any URL with the same key, is a hit
      that yields what the first call yielded. */
  lemma SecondLookupHits(entries: map<string, string>, page: string -> string, url: string, again: string)
    requires CacheKey(again) == CacheKey(url)
    ensures var first := Lookup(entries, page, url);
      Lookup(first.entries, page, again) == Outcome(first.content, first.entries, false)
  {
  }

  /** Pages fetched over `http://` and `https://` share one cache file, so the second
      scheme is served the first one's page. */
  lemma SchemesShareEntry(entries: map<string, string>, page: string -> string, rest: string)
    ensures var first := Lookup(entries, page, "http://" + rest);
      Lookup(first.entries, page, "https://" + rest) == Outcome(first.content, first.entries, false)
  {
    SchemeIndependent(rest);
    SecondLookupHits(entries, page, "http://" + rest, "https://" + rest);
  }

  /** The cache directory, as a map from relative path to file text. */
  class Cache {
    var entries: map<string, string>
    const browser: Browser

    /** `stored` is whatever earlier runs left in the cache directory. */
    constructor (browser: Browser, stored: map<string, string>)
      ensures this.browser == browser && entries == stored
    {
      this.browser := browser;
      entries := stored;
    }

    method GetContent(url: string) returns (content: string)
      modifies this, browser
      ensures var o := Lookup(old(entries), browser.page, url);
        && content == o.content
        && entries == o.entries
        && browser.renders == old(browser.renders) + (if o.fetched then 1 else 0)
    {
      var key := CacheKey(url);
      if key in entries {
        content := entries[key];
        return;
      }
      content := browser.Render(url);
      entries := entries[key := content];
    }

    /** Two requests for one URL: both see what the first lookup yields, the cache
        ends as that lookup leaves it and the browser is used at most once. */
    method GetContentTwice(url: string) returns (first: string, second: string)
      modifies this, browser
      ensures var o := Lookup(old(entries), browser.page, url);
        && first == o.content && second == o.content
        && entries == o.entries
        && browser.renders == old(browser.renders) + (if o.fetched then 1 else 0)
    {
      first := GetContent(url);
      SecondLookupHits(old(entries), browser.page, url, url);
      second := GetContent(url);
    }
  }
}
