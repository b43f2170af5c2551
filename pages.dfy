/** The page loop of one chapter (`download` in mangoose.py): request pages 1, 2, 3, ...
    and save each page's image until a page has no `manga-page` image. The remote site is a
    pair of finite maps; the files written are returned in the order they are written. */
module Pages {
  import opened Text
  import opened Listing

  newtype byte = x: int | 0 <= x < 256

  /** The answer to an image request: its `Content-Type` header and its body. */
  datatype Image = Image(contentType: string, content: seq<byte>)

  /** The remote side: `pages` maps a page URL to the `src` attribute of its `manga-page`
      image, and a page URL it does not map has no such image (the parser's
      `AttributeError`); `images` maps an image URL to the response. */
  datatype Site = Site(pages: map<string, string>, images: map<string, Image>)

  /** A file written into the chapter directory: its name and its bytes. */
  datatype PageFile = PageFile(name: string, content: seq<byte>)

  /** The URL of page `page` of the chapter whose pages hang off `baseUrl`. */
  function PageUrl(baseUrl: string, page: nat): string
  {
    baseUrl + "/" + NatToString(page)
  }

  /** The first `n` page URLs the loop requests, in order. */
  function PageUrls(baseUrl: string, n: nat): seq<string>
  {
    seq(n, k requires 0 <= k < n => PageUrl(baseUrl, k + 1))
  }

  lemma PageUrlsNext(baseUrl: string, n: nat)
    ensures PageUrls(baseUrl, n + 1) == PageUrls(baseUrl, n) + [PageUrl(baseUrl, n + 1)]
  {
  }

  function ImageUrl(src: string): string
  {
    "https:" + src
  }

  /** The name of the file for page `page`: the page number zero-padded to three digits,
      a dot, and the last `/`-segment of the content type. */
  function FileName(page: nat, contentType: string): string
  {
    ZFill(NatToString(page), 3) + "." + LastSegment(contentType, '/')
  }

  predicate HasPage(site: Site, baseUrl: string, page: nat)
  {
    PageUrl(baseUrl, page) in site.pages
  }

  /** Different page numbers give different page URLs. */
  lemma PageUrlInjective(baseUrl: string, a: nat, b: nat)
    requires PageUrl(baseUrl, a) == PageUrl(baseUrl, b)
    ensures a == b
  {
    var prefix := baseUrl + "/";
    assert PageUrl(baseUrl, a)[|prefix|..] == NatToString(a);
    assert PageUrl(baseUrl, b)[|prefix|..] == NatToString(b);
    DecimalOfNatToString(a);
    DecimalOfNatToString(b);
  }

  /** The URLs of pages 1 to `n`. */
  ghost function PageUrlSet(baseUrl: string, n: nat): set<string>
  {
    if n == 0 then {} else PageUrlSet(baseUrl, n - 1) + {PageUrl(baseUrl, n)}
  }

  /** Pages 1 to `n` have `n` distinct URLs, and only they have URLs in the set. */
  lemma {:induction false} PageUrlSetSize(baseUrl: string, n: nat)
    ensures |PageUrlSet(baseUrl, n)| == n
    ensures forall p: nat :: PageUrl(baseUrl, p) in PageUrlSet(baseUrl, n) ==> 1 <= p <= n
  {
    if n > 0 {
      PageUrlSetSize(baseUrl, n - 1);
      forall p: nat | PageUrl(baseUrl, p) in PageUrlSet(baseUrl, n)
        ensures 1 <= p <= n
      {
        if PageUrl(baseUrl, p) == PageUrl(baseUrl, n) {
          PageUrlInjective(baseUrl, p, n);
        }
      }
      assert PageUrl(baseUrl, n) !in PageUrlSet(baseUrl, n - 1);
    }
  }

  /** When pages 1 to `n` all have an image, their URLs are among the site's pages. */
  lemma {:induction false} PageUrlSetServed(site: Site, baseUrl: string, n: nat)
    requires forall p :: 1 <= p <= n ==> HasPage(site, baseUrl, p)
    ensures PageUrlSet(baseUrl, n) <= site.pages.Keys
  {
    if n > 0 {
      PageUrlSetServed(site, baseUrl, n - 1);
      assert HasPage(site, baseUrl, n);
    }
  }

  /** The site has finitely many pages, so every chapter has a page without an image and
      the page loop ends: one of pages 1 to one more than the site's page count. */
  lemma PageMissing(site: Site, baseUrl: string) returns (last: nat)
    ensures 1 <= last <= |site.pages| + 1 && !HasPage(site, baseUrl, last)
  {
    var n := |site.pages| + 1;
    if forall p :: 1 <= p <= n ==> HasPage(site, baseUrl, p) {
      PageUrlSetServed(site, baseUrl, n);
      PageUrlSetSize(baseUrl, n);
      assert |site.pages.Keys| == |site.pages|;
      SubsetSize(PageUrlSet(baseUrl, n), site.pages.Keys);
      assert false;
    }
    last :| 1 <= last <= n && !HasPage(site, baseUrl, last);
  }

  /** A subset is no larger than the set. */
  lemma SubsetSize<T>(a: set<T>, b: set<T>)
    requires a <= b
    ensures |a| <= |b|
  {
    assert b == a + (b - a);
  }

  /** Every image a page refers to can be fetched. */
  predicate ServesImages(site: Site)
  {
    forall url :: url in site.pages ==> ImageUrl(site.pages[url]) in site.images
  }

  /** The file written for a page that has an image. */
  function PageFileAt(site: Site, baseUrl: string, page: nat): PageFile
    requires ServesImages(site) && HasPage(site, baseUrl, page)
  {
    var image := site.images[ImageUrl(site.pages[PageUrl(baseUrl, page)])];
    PageFile(FileName(page, image.contentType), image.content)
  }

  /** `files` is what the page loop writes for the chapter at `baseUrl`: one file for each
      page from 1 up to, and not including, the first page without an image. */
  ghost predicate IsChapterDownload(site: Site, baseUrl: string, files: seq<PageFile>)
    requires ServesImages(site)
  {
    && !HasPage(site, baseUrl, |files| + 1)
    && forall page :: 1 <= page <= |files| ==>
         HasPage(site, baseUrl, page) && files[page - 1] == PageFileAt(site, baseUrl, page)
  }

  /** `download(chapter, dest_path)`: the loop stops at the first page without an image,
      which exists because the site has finitely many pages. Returns the files written
      and the page URLs requested. */
  method Download(chapter: Chapter, site: Site)
    returns (files: seq<PageFile>, requested: seq<string>)
    requires ServesImages(site)
    ensures IsChapterDownload(site, chapter.baseUrl, files)
    ensures |files| <= |site.pages|
    ensures requested == PageUrls(chapter.baseUrl, |files| + 1)
  {
    ghost var last := PageMissing(site, chapter.baseUrl);
    var i := 1;
    files, requested := [], [];
    while true
      invariant 1 <= i <= last
      invariant |files| == i - 1
      invariant requested == PageUrls(chapter.baseUrl, i - 1)
      invariant forall page :: 1 <= page < i ==>
        HasPage(site, chapter.baseUrl, page) && files[page - 1] == PageFileAt(site, chapter.baseUrl, page)
      decreases last - i
    {
      var pageUrl := PageUrl(chapter.baseUrl, i);
      PageUrlsNext(chapter.baseUrl, i - 1);
      requested := requested + [pageUrl];
      if pageUrl !in site.pages {
        break;
      }
      var image := site.images[ImageUrl(site.pages[pageUrl])];
      var extension := LastSegment(image.contentType, '/');
      var fileName := ZFill(NatToString(i), 3) + "." + extension;
      files := files + [PageFile(fileName, image.content)];
      i := i + 1;
    }
  }

  /** Different pages get different file names, whatever their content types. */
  lemma FileNamesDistinct(i: nat, j: nat, typeI: string, typeJ: string)
    requires i != j
    ensures FileName(i, typeI) != FileName(j, typeJ)
  {
    var zi, zj := ZFill(NatToString(i), 3), ZFill(NatToString(j), 3);
    ZFillDecimal(i, 3);
    ZFillDecimal(j, 3);
    if FileName(i, typeI) == FileName(j, typeJ) {
      assert '.' !in zi && '.' !in zj by {
        assert !IsDigit('.');
      }
      SeparatedPrefix(zi, zj, LastSegment(typeI, '/'), LastSegment(typeJ, '/'), '.');
      assert false;
    }
  }

  /** The files of one chapter download have pairwise distinct names, so none overwrites
      another. */
  lemma DownloadNamesDistinct(site: Site, baseUrl: string, files: seq<PageFile>)
    requires ServesImages(site)
    requires IsChapterDownload(site, baseUrl, files)
    ensures forall a, b :: 0 <= a < b < |files| ==> files[a].name != files[b].name
  {
    forall a, b | 0 <= a < b < |files|
      ensures files[a].name != files[b].name
    {
      PageFilesDistinct(site, baseUrl, a + 1, b + 1);
    }
  }

  /** The files written for two different pages have different names. */
  lemma PageFilesDistinct(site: Site, baseUrl: string, p: nat, q: nat)
    requires ServesImages(site) && HasPage(site, baseUrl, p) && HasPage(site, baseUrl, q)
    requires p != q
    ensures PageFileAt(site, baseUrl, p).name != PageFileAt(site, baseUrl, q).name
  {
    var typeP := site.images[ImageUrl(site.pages[PageUrl(baseUrl, p)])].contentType;
    var typeQ := site.images[ImageUrl(site.pages[PageUrl(baseUrl, q)])].contentType;
    FileNamesDistinct(p, q, typeP, typeQ);
  }

  /** The remote site determines the download: two downloads of the same chapter from the
      same site write the same files. */
  lemma DownloadDeterministic(site: Site, baseUrl: string, files: seq<PageFile>, other: seq<PageFile>)
    requires ServesImages(site)
    requires IsChapterDownload(site, baseUrl, files)
    requires IsChapterDownload(site, baseUrl, other)
    ensures files == other
  {
    assert |files| == |other|;
    forall k | 0 <= k < |files|
      ensures files[k] == other[k]
    {
      assert HasPage(site, baseUrl, k + 1);
    }
  }
}
