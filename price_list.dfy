/** Where a price list comes from and where it is cached (`get_price_list`),
    and when the cached copy is used (`download_or_read_cached_json`). The
    HTTP request and the file system are outside the model: their outcomes
    are parameters. */
module PriceList {
  import opened Common

  const Endpoint := "https://pricing.us-east-1.amazonaws.com/offers/v1.0/aws/"
  const UrlMiddle := "/current/"
  const UrlSuffix := "/index.json"
  const CachePrefix := "cache/aws-prices-"
  const CacheSuffix := ".cache.json"

  /** A cached copy is used while it is younger than this many seconds. */
  const DefaultMaxAge: real := 86400.0

  function PriceListUrl(region: string, offer: string): string {
    Endpoint + offer + UrlMiddle + region + UrlSuffix
  }

  function CacheFileName(region: string, offer: string): string {
    CachePrefix + region + "-" + offer + CacheSuffix
  }

  predicate HasPrefix(s: string, p: string) {
    |p| <= |s| && s[..|p|] == p
  }

  predicate HasSuffix(s: string, p: string) {
    |p| <= |s| && s[|s| - |p|..] == p
  }

  /** A string that starts with `p` and ends with `q`, without overlap, is
      `p`, the part between them, and `q`. */
  lemma Framed(s: string, p: string, q: string)
    requires |p| + |q| <= |s| && HasPrefix(s, p) && HasSuffix(s, q)
    ensures s == p + s[|p|..|s| - |q|] + q
  {
    assert s == s[..|p|] + s[|p|..|s| - |q|] + s[|s| - |q|..];
  }

  /** A string in which `m` occurs at `i` is what comes before, `m`, and
      what comes after. */
  lemma SplitAround(s: string, i: nat, m: string)
    requires i <= |s| && HasPrefix(s[i..], m)
    ensures s == s[..i] + m + s[i + |m|..]
  {
    assert s[i..] == s[i..][..|m|] + s[i..][|m|..];
    assert s[i..][|m|..] == s[i + |m|..];
    assert s == s[..i] + s[i..];
  }

  /** Concatenation regrouped: the framed middle written out in its parts. */
  lemma Regrouped(p: string, a: string, m: string, b: string, q: string)
    ensures p + (a + m + b) + q == p + a + m + b + q
  {
  }

  /** Reads region and offer back out of a price list URL; the offer ends
      at the first `/`. */
  function ParsePriceListUrl(url: string): (r: Option<(string, string)>)
    ensures r.Some? ==> PriceListUrl(r.value.0, r.value.1) == url
  {
    if !(|Endpoint| + |UrlSuffix| <= |url| && HasPrefix(url, Endpoint) && HasSuffix(url, UrlSuffix)) then None
    else
      var mid := url[|Endpoint|..|url| - |UrlSuffix|];
      match IndexOf(mid, '/', 0)
      case None => None
      case Some(i) =>
        if HasPrefix(mid[i..], UrlMiddle) then
          var offer, region := mid[..i], mid[i + |UrlMiddle|..];
          Framed(url, Endpoint, UrlSuffix);
          SplitAround(mid, i, UrlMiddle);
          Regrouped(Endpoint, offer, UrlMiddle, region, UrlSuffix);
          Some((region, offer))
        else None
  }

  /** Reads region and offer back out of a cache file name; the offer
      starts after the last `-`. */
  function ParseCacheFileName(name: string): (r: Option<(string, string)>)
    ensures r.Some? ==> CacheFileName(r.value.0, r.value.1) == name
  {
    if !(|CachePrefix| + |CacheSuffix| <= |name| && HasPrefix(name, CachePrefix) && HasSuffix(name, CacheSuffix)) then None
    else
      var mid := name[|CachePrefix|..|name| - |CacheSuffix|];
      match LastIndexOf(mid, '-')
      case None => None
      case Some(i) =>
        var region, offer := mid[..i], mid[i + 1..];
        Framed(name, CachePrefix, CacheSuffix);
        SplitAround(mid, i, "-");
        Regrouped(CachePrefix, region, "-", offer, CacheSuffix);
        Some((region, offer))
  }

  /** The middle of `p + m + q` is `m`. */
  lemma MiddleOf(p: string, m: string, q: string)
    ensures var s := p + m + q;
            && |p| + |q| <= |s| && HasPrefix(s, p) && HasSuffix(s, q)
            && s[|p|..|s| - |q|] == m
  {
    var s := p + m + q;
    assert s[..|p|] == p;
    assert s[|s| - |q|..] == q;
    assert s[|p|..|s| - |q|] == m;
  }

  /** How `ParsePriceListUrl` sees a URL built from an offer without `/`:
      framed by the endpoint and the suffix, with its first `/` right after
      the offer. */
  lemma UrlParts(region: string, offer: string)
    requires '/' !in offer
    ensures var url := PriceListUrl(region, offer);
            var mid := offer + UrlMiddle + region;
            && |Endpoint| + |UrlSuffix| <= |url| && HasPrefix(url, Endpoint) && HasSuffix(url, UrlSuffix)
            && url[|Endpoint|..|url| - |UrlSuffix|] == mid
            && IndexOf(mid, '/', 0) == Some(|offer|)
            && HasPrefix(mid[|offer|..], UrlMiddle) && mid[..|offer|] == offer
            && mid[|offer| + |UrlMiddle|..] == region
  {
    var url := PriceListUrl(region, offer);
    var mid := offer + UrlMiddle + region;
    Regrouped(Endpoint, offer, UrlMiddle, region, UrlSuffix);
    MiddleOf(Endpoint, mid, UrlSuffix);
    MidParts(offer, region);
  }

  lemma MidParts(offer: string, region: string)
    requires '/' !in offer
    ensures var mid := offer + UrlMiddle + region;
            && IndexOf(mid, '/', 0) == Some(|offer|)
            && HasPrefix(mid[|offer|..], UrlMiddle) && mid[..|offer|] == offer
            && mid[|offer| + |UrlMiddle|..] == region
  {
    var mid := offer + UrlMiddle + region;
    assert mid[|offer|] == '/';
    assert forall k :: 0 <= k < |offer| ==> mid[k] == offer[k];
    assert mid[|offer|..] == UrlMiddle + region;
  }

  /** An offer code without `/` (such as `AmazonEC2`) is recovered from the
      URL together with the region, so distinct pairs get distinct URLs. */
  lemma UrlRoundTrip(region: string, offer: string)
    requires '/' !in offer
    ensures ParsePriceListUrl(PriceListUrl(region, offer)) == Some((region, offer))
  {
    UrlParts(region, offer);
  }

  /** An offer code without `-` is recovered from the cache file name
      together with the region, whatever dashes the region contains. */
  lemma CacheFileNameRoundTrip(region: string, offer: string)
    requires '-' !in offer
    ensures ParseCacheFileName(CacheFileName(region, offer)) == Some((region, offer))
  {
    var name := CacheFileName(region, offer);
    var mid := region + "-" + offer;
    assert |CachePrefix| + |CacheSuffix| <= |name| && HasPrefix(name, CachePrefix) && HasSuffix(name, CacheSuffix)
        && name[|CachePrefix|..|name| - |CacheSuffix|] == mid by {
      Regrouped(CachePrefix, region, "-", offer, CacheSuffix);
      MiddleOf(CachePrefix, mid, CacheSuffix);
    }
    assert LastIndexOf(mid, '-') == Some(|region|) by {
      assert mid[|region|] == '-';
      assert forall k :: |region| < k < |mid| ==> mid[k] == offer[k - |region| - 1];
    }
    assert mid[..|region|] == region && mid[|region| + 1..] == offer;
  }

  /** Without that condition two pairs can share one cache file. */
  lemma CacheFileNamesCanCollide()
    ensures CacheFileName("us-east-1", "AmazonEC2") == CacheFileName("us-east", "1-AmazonEC2")
  {
  }

  /** The file's state as `os.path.isfile` and `os.stat` see it. */
  datatype CacheFile = CacheFile(content: string, mtime: real)

  /** The freshness rule: the cache is used when the file exists and its
      age is strictly below `maxAge`. */
  predicate IsFresh(file: Option<CacheFile>, now: real, maxAge: real) {
    file.Some? && now - file.value.mtime < maxAge
  }

  /** What one call of `download_or_read_cached_json` does. */
  datatype Outcome = Outcome(result: Result<string>, file: Option<CacheFile>, fetched: bool)

  /** One call, given the cache file's state, the clock `now` when the
      call starts, the clock `written` when the response has been written,
      and what the HTTP request would answer (the body, or the error
      `raise_for_status` raises). A fresh file is read and nothing is
      requested; otherwise the response is used, and written to the file
      only when it succeeded. The new file's modification time is the time
      of the write, which comes after the request. */
  function DownloadOrReadCached(file: Option<CacheFile>, now: real, written: real, maxAge: real,
                                response: Result<string>): (o: Outcome)
    ensures o.fetched <==> !IsFresh(file, now, maxAge)
    ensures !o.fetched ==> o.result == Ok(file.value.content) && o.file == file
    ensures o.fetched ==> o.result == response
    ensures o.fetched && response.Err? ==> o.file == file
    ensures o.fetched && response.Ok? ==> o.file == Some(CacheFile(response.value, written))
  {
    if IsFresh(file, now, maxAge) then Outcome(Ok(file.value.content), file, false)
    else if response.Err? then Outcome(response, file, true)
    else Outcome(response, Some(CacheFile(response.value, written)), true)
  }

  /** A fetched body is served again, without a request, by every later
      call that starts less than the maximum age after the body was
      written, and is requested again from then on. */
  lemma CacheRoundTrip(file: Option<CacheFile>, t0: real, written: real, body: string,
                       t1: real, written': real, maxAge: real, second: Result<string>)
    requires t0 <= written <= t1
    requires DownloadOrReadCached(file, t0, written, maxAge, Ok(body)).fetched
    ensures var o := DownloadOrReadCached(file, t0, written, maxAge, Ok(body));
            var o' := DownloadOrReadCached(o.file, t1, written', maxAge, second);
            o.result == Ok(body) &&
            (t1 - written < maxAge ==> !o'.fetched && o'.result == Ok(body)) &&
            (t1 - written >= maxAge ==> o'.fetched && o'.result == second)
  {
  }

  /** A failed request leaves an existing cache file exactly as it was. */
  lemma FailedFetchKeepsFile(file: Option<CacheFile>, now: real, written: real, maxAge: real, e: Error)
    ensures DownloadOrReadCached(file, now, written, maxAge, Err(e)).file == file
  {
  }

  /** The cache directory as a map from file name to file. */
  type Files = map<string, CacheFile>

  /** `get_price_list(region, offer)`: the cached copy of this pair's URL
      under the default maximum age; `fetch` answers a request for a URL,
      and `written` is the clock when a fetched body has been written. */
  function GetPriceList(files: Files, now: real, written: real, fetch: string -> Result<string>,
                        region: string, offer: string): (r: (Result<string>, Files))
    ensures forall name :: name != CacheFileName(region, offer) ==>
              (name in r.1 <==> name in files) && (name in files ==> r.1[name] == files[name])
    ensures var name := CacheFileName(region, offer);
            if name in files && now - files[name].mtime < DefaultMaxAge
            then r == (Ok(files[name].content), files)
            else && r.0 == fetch(PriceListUrl(region, offer))
                 && (r.0.Ok? ==> r.1 == files[name := CacheFile(r.0.value, written)])
                 && (r.0.Err? ==> r.1 == files)
  {
    var name := CacheFileName(region, offer);
    var o := DownloadOrReadCached(if name in files then Some(files[name]) else None, now, written,
                                  DefaultMaxAge, fetch(PriceListUrl(region, offer)));
    (o.result, if o.fetched && o.result.Ok? then files[name := o.file.value] else files)
  }

  /** For one offer code, different regions get different cache files. */
  lemma CacheFileNamesApart(region: string, other: string, offer: string)
    requires region != other
    ensures CacheFileName(region, offer) != CacheFileName(other, offer)
  {
    var a, b := CacheFileName(region, offer), CacheFileName(other, offer);
    if |region| == |other| {
      var lo, hi := |CachePrefix|, |CachePrefix| + |region|;
      assert a[lo..hi] == region by {
        assert forall k :: lo <= k < hi ==> a[k] == region[k - lo];
      }
      assert b[lo..hi] == other by {
        assert forall k :: lo <= k < hi ==> b[k] == other[k - lo];
      }
    } else {
      assert |a| != |b|;
    }
  }

  /** Price lists of different regions for one offer code live in different
      files: fetching one leaves the other's cache alone. */
  lemma RegionsCachedApart(files: Files, now: real, written: real, fetch: string -> Result<string>,
                           region: string, other: string, offer: string)
    requires region != other
    ensures var files' := GetPriceList(files, now, written, fetch, region, offer).1;
            var name := CacheFileName(other, offer);
            (name in files' <==> name in files) && (name in files ==> files'[name] == files[name])
  {
    CacheFileNamesApart(region, other, offer);
  }
}
