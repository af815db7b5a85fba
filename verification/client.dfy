/** The pure part of `WikipediaClient.get_figure_data`: the best search hit
    names the page, whose summary and infobox are merged into one raw figure
    dictionary. The HTTP requests are not modelled; what they returned is
    given as functions of the page title. */
module Client {
  import opened Values
  import opened Infobox

  /** One entry of `search_figure`'s result. */
  datatype SearchHit = SearchHit(title: string, snippet: Value, timestamp: Value)

  /** The dictionary `get_page_content` returns, one field per key, as the
      JSON values the summary endpoint delivered. */
  datatype PageData = PageData(
    title: Value,
    extract: Value,
    description: Value,
    thumbnail: Value,
    pageUrl: Value,
    coordinates: Value,
    kind: Value,
    fullHtml: string)

  /** The keys the combined dictionary takes from the page summary. */
  const PageKeys: set<string> :=
    {"name", "summary", "description", "image_url", "wikipedia_url", "coordinates", "type"}

  /** No infobox field has the name of a summary field, so merging the
      infobox never overwrites what the summary gave. */
  lemma PageAndInfoboxKeysDisjoint(k: string)
    requires k in InfoboxKeys
    ensures k !in PageKeys
  {
  }

  /** The summary fields under the keys of the figure dictionary. */
  function PageDict(p: PageData): (d: Dict)
    ensures d.Keys == PageKeys
    ensures d["name"] == p.title && d["summary"] == p.extract && d["description"] == p.description
    ensures d["image_url"] == p.thumbnail && d["wikipedia_url"] == p.pageUrl
    ensures d["coordinates"] == p.coordinates && d["type"] == p.kind
  {
    map["name" := p.title, "summary" := p.extract, "description" := p.description,
        "image_url" := p.thumbnail, "wikipedia_url" := p.pageUrl,
        "coordinates" := p.coordinates, "type" := p.kind]
  }

  /** Reads the summary fields back from a figure dictionary; the page's
      HTML is not among them and is supplied separately. */
  function PageOfDict(d: Dict, fullHtml: string): Option<PageData> {
    if PageKeys <= d.Keys then
      Some(PageData(d["name"], d["summary"], d["description"], d["image_url"],
                    d["wikipedia_url"], d["coordinates"], d["type"], fullHtml))
    else None
  }

  /** The figure dictionary keeps every summary field of the page. */
  lemma PageDictRoundTrip(p: PageData)
    ensures PageOfDict(PageDict(p), p.fullHtml) == Some(p)
  {
  }

  /** `{**base, **extra}`: the later dictionary wins on shared keys. */
  function Merge(base: Dict, extra: Dict): (d: Dict)
    ensures d.Keys == base.Keys + extra.Keys
    ensures forall k :: k in extra ==> d[k] == extra[k]
    ensures forall k :: k in base && k !in extra ==> d[k] == base[k]
  {
    base + extra
  }

  function StrDict(m: map<string, string>): (d: Dict)
    ensures d.Keys == m.Keys && forall k :: k in m ==> d[k] == VStr(m[k])
  {
    map k | k in m :: VStr(m[k])
  }

  /** `get_figure_data(name)` after its requests: `None` when the search
      found nothing or the page summary could not be had; otherwise the
      summary fields with the infobox fields merged in. `pages(t)` is what
      `get_page_content(t)` returned and `wikitexts(t)` the pages that
      `get_infobox_data(t)`'s query returned (empty when it failed). */
  function FigureData(hits: seq<SearchHit>, pages: string -> Option<PageData>,
                      wikitexts: string -> seq<Option<string>>): (r: Option<Dict>)
    ensures r.None? <==> hits == [] || pages(hits[0].title).None?
    ensures r.Some? ==> r.value.Keys == PageKeys + InfoboxFromPages(wikitexts(hits[0].title)).Keys
    ensures r.Some? ==> forall k :: k in PageKeys ==> r.value[k] == PageDict(pages(hits[0].title).value)[k]
    ensures r.Some? ==> var info := InfoboxFromPages(wikitexts(hits[0].title));
      forall k :: k in info ==> r.value[k] == VStr(info[k])
  {
    if hits == [] then None
    else
      var title := hits[0].title;
      match pages(title)
      case None => None
      case Some(p) =>
        var info := InfoboxFromPages(wikitexts(title));
        var d := StrDict(info);
        forall k | k in d ensures k !in PageKeys {
          PageAndInfoboxKeysDisjoint(k);
        }
        Some(Merge(PageDict(p), d))
  }

  /** The merged figure dictionary still reads back to the page summary it
      was built from: the infobox never overwrites a summary field. */
  lemma FigureDataKeepsPage(hits: seq<SearchHit>, pages: string -> Option<PageData>,
                            wikitexts: string -> seq<Option<string>>)
    requires hits != [] && pages(hits[0].title).Some?
    ensures var p := pages(hits[0].title).value;
      PageOfDict(FigureData(hits, pages, wikitexts).value, p.fullHtml) == Some(p)
  {
    var p := pages(hits[0].title).value;
    var d := FigureData(hits, pages, wikitexts).value;
    assert forall k :: k in PageKeys ==> d[k] == PageDict(p)[k];
    PageDictRoundTrip(p);
  }
}
