/**
 * The registration-API half of main.py: which version `get_latest_version`
 * picks from a registration index, and the content URL `get_download_url`
 * reads from a registration leaf. The JSON documents are already decoded;
 * fetching a page that the index gives only by URL is an oracle lookup.
 */
module Registration {
  import opened Failures

  /** `catalogEntry`: the keys read from it, each possibly absent. */
  datatype CatalogEntry = CatalogEntry(version: Option<string>, packageContent: Option<string>)

  /** One item of a page, or the leaf document of one version. */
  datatype Leaf = Leaf(catalogEntry: Option<CatalogEntry>)

  /** A page body; `items` may be absent, which `.get('items', [])` reads as empty. */
  datatype PageBody = PageBody(items: Option<seq<Leaf>>)

  /** A page is inlined in the index or given as a URL to fetch. */
  datatype Page = Inline(body: PageBody) | Link(url: string)

  datatype RegistrationIndex = RegistrationIndex(items: Option<seq<Page>>)

  /** The page fetch: the decoded body, or None when the request or the decoding raises. */
  type PageFetcher = string -> Option<PageBody>

  function ItemsOr<T>(items: Option<seq<T>>): seq<T> {
    match items
    case Some(xs) => xs
    case None => []
  }

  /** The last page, with a linked page dereferenced. */
  function ResolvePage(page: Page, fetch: PageFetcher): Result<PageBody> {
    match page
    case Inline(body) => Ok(body)
    case Link(url) => Need(fetch(url), RegistryUnavailable)
  }

  /** main.py `get_latest_version` after the index has been fetched and decoded. */
  function LatestVersion(index: RegistrationIndex, fetch: PageFetcher): (r: Result<string>)
    ensures ItemsOr(index.items) == [] ==> r == Err(NoRegistrationPages)
    ensures r.Ok? ==>
              var pages := ItemsOr(index.items);
              pages != [] &&
              ResolvePage(pages[|pages| - 1], fetch).Ok? &&
              var items := ItemsOr(ResolvePage(pages[|pages| - 1], fetch).value.items);
              items != [] &&
              items[|items| - 1].catalogEntry.Some? &&
              items[|items| - 1].catalogEntry.value.version == Some(r.value)
  {
    var pages := ItemsOr(index.items);
    if pages == [] then Err(NoRegistrationPages)
    else
      var lastPage :- ResolvePage(pages[|pages| - 1], fetch);
      var items := ItemsOr(lastPage.items);
      if items == [] then Err(NoPageItems)
      else
        match items[|items| - 1].catalogEntry
        case None => Err(MissingCatalogEntry)
        case Some(entry) => Need(entry.version, MissingCatalogEntry)
  }

  /**
   * Appending a version to the last inlined page makes exactly that version
   * the one selected, whatever came before it.
   */
  lemma LatestVersionIsLastAppended(pages: seq<Page>, items: seq<Leaf>, v: string, packageContent: Option<string>,
                                    fetch: PageFetcher)
    ensures var leaf := Leaf(Some(CatalogEntry(Some(v), packageContent)));
            var index := RegistrationIndex(Some(pages + [Inline(PageBody(Some(items + [leaf])))]));
            LatestVersion(index, fetch) == Ok(v)
  {
    var leaf := Leaf(Some(CatalogEntry(Some(v), packageContent)));
    var all := pages + [Inline(PageBody(Some(items + [leaf])))];
    assert all[|all| - 1] == Inline(PageBody(Some(items + [leaf])));
  }

  /** An empty last page raises, even when earlier pages hold versions. */
  lemma EmptyLastPageFails(pages: seq<Page>, fetch: PageFetcher)
    ensures LatestVersion(RegistrationIndex(Some(pages + [Inline(PageBody(None))])), fetch) == Err(NoPageItems)
    ensures LatestVersion(RegistrationIndex(Some(pages + [Inline(PageBody(Some([])))])), fetch) == Err(NoPageItems)
  {
    var a := pages + [Inline(PageBody(None))];
    var b := pages + [Inline(PageBody(Some([])))];
    assert a[|a| - 1] == Inline(PageBody(None));
    assert b[|b| - 1] == Inline(PageBody(Some([])));
  }

  /** A linked last page is read through the fetcher; a failed fetch raises. */
  lemma LinkedLastPage(pages: seq<Page>, url: string, fetch: PageFetcher)
    ensures var index := RegistrationIndex(Some(pages + [Link(url)]));
            fetch(url).None? ==> LatestVersion(index, fetch) == Err(RegistryUnavailable)
    ensures var index := RegistrationIndex(Some(pages + [Link(url)]));
            fetch(url).Some? ==>
              LatestVersion(index, fetch) == LatestVersion(RegistrationIndex(Some([Inline(fetch(url).value)])), fetch)
  {
    var a := pages + [Link(url)];
    assert a[|a| - 1] == Link(url);
  }

  /**
   * main.py `get_download_url` after the leaf has been fetched: the
   * `packageContent` value unchanged, or NoDownloadUrl when it is absent or empty.
   */
  function DownloadUrl(leaf: Leaf): (r: Result<string>)
    ensures r.Ok? <==> leaf.catalogEntry.Some? && leaf.catalogEntry.value.packageContent.Some?
                       && leaf.catalogEntry.value.packageContent.value != ""
    ensures r.Ok? ==> r.value == leaf.catalogEntry.value.packageContent.value
    ensures r.Err? ==> r.error == NoDownloadUrl
  {
    var entry := match leaf.catalogEntry case Some(e) => e case None => CatalogEntry(None, None);
    match entry.packageContent
    case Some(url) => if url == "" then Err(NoDownloadUrl) else Ok(url)
    case None => Err(NoDownloadUrl)
  }
}
