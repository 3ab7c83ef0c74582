/**
  Where a page comes from: the site is recognised by a substring of its
  URL (Zhihu first, then SegmentFault, else any page), and a Zhihu
  article's id is read off the end of its URL for the article API.
 */
module SiteSource {
  import opened PyStr

  datatype Site = Zhihu | SegmentFault | Generic

  /** The tests `'zhihu.com' in url` and `'segmentfault.com' in url`, in
      that order, that pick both the request headers and the fetcher. */
  function SiteOf(url: string): (r: Site)
    ensures r == Zhihu <==> Contains(url, "zhihu.com")
    ensures r == SegmentFault <==> !Contains(url, "zhihu.com") && Contains(url, "segmentfault.com")
    ensures r == Generic <==> !Contains(url, "zhihu.com") && !Contains(url, "segmentfault.com")
  {
    if Contains(url, "zhihu.com") then Zhihu
    else if Contains(url, "segmentfault.com") then SegmentFault
    else Generic
  }

  /** A URL that mentions both sites is treated as Zhihu, wherever the
      two names occur. */
  lemma ZhihuFirst(url: string)
    requires Contains(url, "segmentfault.com") && Contains(url, "zhihu.com")
    ensures SiteOf(url) == Zhihu
  {
  }

  /** The site test looks anywhere in the URL, the query string included. */
  lemma SiteFromQuery(path: string, query: string)
    requires Contains(query, "zhihu.com")
    ensures SiteOf(path + "?" + query) == Zhihu
  {
    var url := path + "?" + query;
    assert url[|path| + 1..] == query;
    ContainsInSuffix(url, |path| + 1, "zhihu.com");
  }

  /** What follows the last `/` of the URL; when the URL holds `p/`, what
      follows the last `p/` of that. */
  function ArticleId(url: string): (r: string)
    ensures |r| <= |url| && r == url[|url| - |r|..]
    ensures !Contains(r, "/")
  {
    var id := LastPiece(url, "/");
    NoSlashNoPSlash(id);
    if Contains(url, "p/") then LastPiece(id, "p/") else id
  }

  /** Every occurrence of `p/` holds an occurrence of `/`. */
  lemma NoSlashNoPSlash(s: string)
    ensures Contains(s, "p/") ==> Contains(s, "/")
  {
    if Contains(s, "p/") {
      ContainsIffOccurs(s, "p/");
      var i :| 0 <= i <= |s| - 2 && s[i..][..2] == "p/";
      assert s[i..][1] == '/';
      assert s[i + 1..][..1] == "/";
      ContainsIffOccurs(s, "/");
    }
  }

  /** The second split never changes the id: the last `/`-segment holds
      no `/`, so it holds no `p/` either. */
  lemma ArticleIdIsLastSegment(url: string)
    ensures ArticleId(url) == LastPiece(url, "/")
  {
    var id := LastPiece(url, "/");
    NoSlashNoPSlash(id);
  }

  /** The article API the id is sent to. */
  function ApiUrl(id: string): string
  {
    "https://www.zhihu.com/api/v4/articles/" + id
  }

  /** The last `/`-segment after a string ending in `/` is what follows it,
      when that holds no `/`. */
  lemma {:induction false} LastPieceAfterSlash(a: string, b: string)
    requires a != [] && a[|a| - 1] == '/' && !Contains(b, "/")
    ensures LastPiece(a + b, "/") == b
    decreases |a|
  {
    var s := a + b;
    if a == "/" {
      assert StartsWith(s, "/");
      assert s[1..] == b;
    } else if a[0] == '/' {
      assert StartsWith(s, "/");
      assert s[1..] == a[1..] + b;
      LastPieceAfterSlash(a[1..], b);
    } else {
      assert s[..1] == [a[0]];
      assert s[1..] == a[1..] + b;
      assert s[1..][|a| - 2..][..1] == "/";
      ContainsIffOccurs(s[1..], "/");
      LastPieceAfterSlash(a[1..], b);
    }
  }

  /** The id can be read back from the API URL it builds. */
  lemma ApiUrlRoundTrip(url: string)
    ensures ArticleId(ApiUrl(ArticleId(url))) == ArticleId(url)
  {
    var id := ArticleId(url);
    LastPieceAfterSlash("https://www.zhihu.com/api/v4/articles/", id);
    ArticleIdIsLastSegment(ApiUrl(id));
  }
}
