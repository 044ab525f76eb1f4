/**
 * The crawler object: the fields `crawl` and the collectors update, the three
 * collectors as methods appending to the `urls` table, and `crawl` itself from
 * the moment the page has been fetched.
 */
module Crawling {
  import opened Wrappers
  import opened Strings
  import opened Document
  import opened Collectors
  import opened Scoring
  import opened Ranking

  predicate HasScheme(input: string) {
    HasPrefix(input, "http://") || HasPrefix(input, "https://")
  }

  /**
   * The local `bare_url` of `crawl`: with a scheme, every `http://` and then
   * every `https://` removed and the rest lower-cased; without one, the input
   * unchanged.
   */
  function LocalBare(input: string): string {
    if HasScheme(input) then Lower(ReplaceAll(ReplaceAll(input, "http://", ""), "https://", ""))
    else input
  }

  /** `bare_url.split(".")[0]` */
  function SiteName(bare: string): string {
    SplitOn(bare, {'.'})[0]
  }

  /** An input with a scheme is lower-cased; one without is kept as typed. */
  lemma LocalBareCase(input: string)
    ensures HasScheme(input) ==> IsLower(LocalBare(input))
    ensures !HasScheme(input) ==> LocalBare(input) == input
  {
    if HasScheme(input) {
      LowerIsLower(ReplaceAll(ReplaceAll(input, "http://", ""), "https://", ""));
    }
  }

  /** The joined string starts with the first piece, followed by the first joint when there is one. */
  lemma {:induction false} InterleaveStartsWithFirst(pieces: seq<string>, joints: string)
    requires |pieces| == |joints| + 1
    ensures HasPrefix(Interleave(pieces, joints), pieces[0])
    ensures joints == [] ==> Interleave(pieces, joints) == pieces[0]
    ensures joints != [] ==>
      |pieces[0]| < |Interleave(pieces, joints)| && Interleave(pieces, joints)[|pieces[0]|] == joints[0]
  {
    if joints != [] {
      var rest := Interleave(pieces[1..], joints[1..]);
      assert (pieces[0] + [joints[0]] + rest)[..|pieces[0]|] == pieces[0];
      assert (pieces[0] + [joints[0]] + rest)[|pieces[0]|] == joints[0];
    }
  }

  /**
   * The site name is the part of the bare URL before its first dot: a prefix
   * holding no dot, followed by a dot unless it is the whole bare URL.
   */
  lemma SiteNameMeaning(bare: string)
    ensures '.' !in SiteName(bare)
    ensures HasPrefix(bare, SiteName(bare))
    ensures |SiteName(bare)| < |bare| ==> bare[|SiteName(bare)|] == '.'
    ensures '.' !in bare ==> SiteName(bare) == bare
  {
    SplitOnRejoins(bare, {'.'});
    InterleaveStartsWithFirst(SplitOn(bare, {'.'}), SeparatorsOf(bare, {'.'}));
    var s := SiteName(bare);
    assert forall i :: 0 <= i < |s| ==> s[i] != '.';
  }

  class Crawler {
    /**
     * The table the collectors append to: `website, ref, url, source, size`.
     * `crawl` replaces it by the ranked table: deduplicated, sorted, filtered
     * and with its URLs fixed.
     */
    var urls: seq<Row>
    /** The page title, lower-cased, as the browser reported it; empty when the page could not be read. */
    var title: string
    var bareUrl: string
    var siteName: string
    const debug: bool

    constructor (debug: bool)
      ensures urls == [] && title == "" && bareUrl == "" && siteName == ""
      ensures this.debug == debug
    {
      urls := [];
      title := "";
      bareUrl := "";
      siteName := "";
      this.debug := debug;
    }

    /** The scoring context `process` reads from the object. */
    function Context(): Scoring.Context
      reads this
    {
      Scoring.Context(siteName, bareUrl, title)
    }

    /** `get_by_img`: appends the row of one `<img>`, if it has a `src`. */
    method GetByImg(tag: Attrs)
      modifies this`urls
      ensures urls == old(urls) + ImgRows(tag, bareUrl)
    {
      var alt, url := Get(tag, "alt"), Get(tag, "src");
      if !Truthy(url) {
        return;
      }
      var size := DimSize(Get(tag, "height"), Get(tag, "width"));
      urls := urls + [Row(bareUrl, alt, url.value, Img, size)];
    }

    /** `get_by_a`: appends the row of the first image inside an anchor, if one of its sources is an image file. */
    method GetByA(tag: Element)
      modifies this`urls
      ensures urls == old(urls) + AnchorRows(tag, bareUrl)
    {
      if tag.firstImg.None? {
        return;
      }
      var img := tag.firstImg.value;
      var alt2 := Get(img, "alt");
      var src, data, lazy := Get(img, "src"), Get(img, "data-src"), Get(img, "data-lazy-src");
      var url2;
      if Qualifies(src) {
        url2 := Lower(src.value);
      } else if Qualifies(data) {
        url2 := Lower(data.value);
      } else if Qualifies(lazy) {
        url2 := Lower(lazy.value);
      } else {
        return;
      }
      var size := DimSize(Get(img, "height"), Get(img, "width"));
      urls := urls + [Row(bareUrl, alt2, url2, AnchorImg, size)];
    }

    /**
     * The body of `get_by_link` for one element: a `<link>` with `rel`, `href`
     * and a marker in `href` appends a row; `raised` reports the IndexError of
     * a `rel` without tokens.
     */
    method LinkTag(tag: Element) returns (raised: bool)
      modifies this`urls
      ensures urls == old(urls) + StepRows(StepOf(tag, bareUrl))
      ensures raised == StepOf(tag, bareUrl).RelIndexError?
    {
      if tag.name == "link" {
        var rel, href := Get(tag.attrs, "rel"), Get(tag.attrs, "href");
        var size := LinkSize(Get(tag.attrs, "sizes"));
        if rel.Some? && href.Some? && HasMarker(href.value) {
          var first := FirstToken(rel.value);
          if first.None? {
            return true;
          }
          urls := urls + [Row(bareUrl, first, href.value, Link, size)];
        }
      }
      return false;
    }

    /**
     * `get_by_link`: walks the `<link>` elements in document order, appending a
     * row for each with `rel`, `href` and a marker in `href`. `raised` reports
     * the IndexError of a `rel` without tokens, which ends the walk.
     */
    method GetByLink(doc: seq<Element>) returns (raised: bool)
      modifies this`urls
      ensures urls == old(urls) + LinkScan(doc, bareUrl).rows
      ensures raised == LinkScan(doc, bareUrl).raised
    {
      var website := bareUrl;
      var i := 0;
      while i < |doc|
        invariant 0 <= i <= |doc| && bareUrl == website
        invariant !LinkScan(doc[..i], website).raised
        invariant urls == old(urls) + LinkScan(doc[..i], website).rows
      {
        assert LinkScan(doc[..i + 1], website)
            == Scan(LinkScan(doc[..i], website).rows + StepRows(StepOf(doc[i], website)), StepOf(doc[i], website).RelIndexError?) by {
          assert doc[..i + 1] == doc[..i] + [doc[i]];
          LinkScanSnoc(doc[..i], doc[i], website);
        }
        raised := LinkTag(doc[i]);
        if raised {
          LinkScanStops(doc, i + 1, website);
          return;
        }
        i := i + 1;
      }
      assert doc[..i] == doc;
      raised := false;
    }

    /**
     * The dispatch inside the `<a>`/`<img>` loop: an anchor goes to `get_by_a`,
     * an image to `get_by_img`. After the elements `done`, the rows collected so
     * far extend by what `tag` contributes.
     */
    method CollectTag(tag: Element, ghost done: seq<Element>, ghost start: seq<Row>)
      requires urls == start + TagRows(done, bareUrl)
      modifies this`urls
      ensures urls == start + TagRows(done + [tag], bareUrl)
    {
      TagRowsSnoc(done, tag, bareUrl);
      if tag.name == "a" {
        GetByA(tag);
      } else if tag.name == "img" {
        GetByImg(tag.attrs);
      }
    }

    /** `for tag in soup.find_all(['a', 'img'])`: each anchor and image in document order goes to its collector. */
    method WalkTags(doc: seq<Element>)
      modifies this`urls
      ensures urls == old(urls) + TagRows(doc, bareUrl)
    {
      var website := bareUrl;
      var i := 0;
      while i < |doc|
        invariant 0 <= i <= |doc| && bareUrl == website
        invariant urls == old(urls) + TagRows(doc[..i], website)
      {
        CollectTag(doc[i], doc[..i], old(urls));
        assert doc[..i] + [doc[i]] == doc[..i + 1];
        i := i + 1;
      }
      assert doc[..i] == doc;
    }

    /**
     * The stages of `crawl` after a non-empty collection: deduplicate `urls`,
     * score, sort, filter outside debug mode, fix the URLs against `bare`, and
     * answer with the best URL or, in debug mode, the table. `urls` ends as the
     * rows of the ranked table, empty when the filter leaves nothing.
     */
    method RankUrls(bare: string, sim: Similarity) returns (result: Outcome)
      requires urls != []
      modifies this`urls
      ensures urls == RowsOf(Ranked(old(urls), Context(), sim, debug, bare))
      ensures result == Rank(old(urls), Context(), sim, debug, bare)
    {
      urls := Dedupe(urls);
      var table := ScoreRows(urls, Context(), sim);
      var ranked := SortDesc(table);
      if !debug {
        ranked := KeepAbove(ranked);
      }
      if ranked == [] {
        urls := [];
        return NoLogo;
      }
      ranked := FixUrls(ranked, bare);
      urls := RowsOf(ranked);
      if debug {
        return Table(Entries(ranked));
      }
      return Logo(ranked[0].row.url);
    }

    /**
     * `crawl(bare_url)` once `connect` has run: `page` is what it fetched, None
     * when it could not. Normalises the input, collects candidates from the
     * `<a>`/`<img>` walk and the `<link>` walk, and ranks them.
     */
    method Crawl(input: string, page: Option<Page>, sim: Similarity) returns (result: Outcome)
      modifies this
      ensures bareUrl == Lower(LocalBare(input)) && siteName == SiteName(LocalBare(input))
      ensures page.None? ==> title == "" && result == NoLogo && urls == old(urls)
      ensures page.Some? ==> title == Lower(page.value.title)
      ensures page.Some? ==>
        var doc := page.value.doc;
        var collected := old(urls) + TagRows(doc, bareUrl) + LinkScan(doc, bareUrl).rows;
        if LinkScan(doc, bareUrl).raised then
          result == RelError && urls == collected
        else
          && result == Rank(collected, Context(), sim, debug, LocalBare(input))
          && urls == (if collected == [] then [] else RowsOf(Ranked(collected, Context(), sim, debug, LocalBare(input))))
    {
      var bare := input;
      if HasScheme(input) {
        bare := Lower(ReplaceAll(ReplaceAll(input, "http://", ""), "https://", ""));
      }
      bareUrl := Lower(bare);
      siteName := SplitOn(bare, {'.'})[0];
      if page.None? {
        title := "";
        return NoLogo;
      }
      title := Lower(page.value.title);
      var doc := page.value.doc;
      WalkTags(doc);
      var raised := GetByLink(doc);
      if raised {
        return RelError;
      }
      if urls == [] {
        DedupeSize(urls);
        return NoLogo;
      }
      result := RankUrls(bare, sim);
    }
  }

  /** `urls.apply(process, axis=1)`: every row scored by `process`, in table order. */
  method ScoreRows(rows: seq<Row>, ctx: Scoring.Context, sim: Similarity) returns (table: seq<Scored>)
    ensures table == ScoreAll(rows, ctx, sim)
  {
    table := [];
    for j := 0 to |rows|
      invariant |table| == j
      invariant forall k :: 0 <= k < j ==> table[k] == ScoreAll(rows, ctx, sim)[k]
    {
      var score, score2 := Process(rows[j], ctx, sim);
      table := table + [Scored(rows[j], score, score2)];
    }
  }
}
