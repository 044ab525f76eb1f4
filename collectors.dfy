/**
 * The three tag collectors of the crawler (`get_by_img`, `get_by_a`,
 * `get_by_link`) as functions from an element to the rows it contributes, and
 * the two document walks of `crawl` that feed them.
 */
module Collectors {
  import opened Wrappers
  import opened Strings
  import opened Numbers
  import opened Document

  // ---------------------------------------------------------------------------
  // Size inference
  // ---------------------------------------------------------------------------

  /** `float(tag.get(name) or 1)`: a missing or empty attribute counts as 1. */
  function Dimension(v: Option<string>): Option<real> {
    if Truthy(v) then ParseFloat(v.value) else Some(1.0)
  }

  /** `int(float(height) * float(width))`, with a ValueError giving 1. */
  function DimSize(height: Option<string>, width: Option<string>): int {
    SizeOf(Dimension(height), Dimension(width))
  }

  /** The product of the two parsed dimensions, truncated; 1 when either failed to parse. */
  function SizeOf(h: Option<real>, w: Option<real>): int {
    if h.Some? && w.Some? then Trunc(h.value * w.value) else 1
  }

  /**
   * A missing or empty dimension is a factor of 1, so with both missing the
   * size is 1; an unparsable dimension gives size 1 as well.
   */
  lemma DimSizeDefaults(height: Option<string>, width: Option<string>)
    ensures !Truthy(height) && !Truthy(width) ==> DimSize(height, width) == 1
    ensures !Truthy(width) && Truthy(height) && ParseFloat(height.value).Some? ==>
      DimSize(height, width) == Trunc(ParseFloat(height.value).value)
    ensures !Truthy(height) && Truthy(width) && ParseFloat(width.value).Some? ==>
      DimSize(height, width) == Trunc(ParseFloat(width.value).value)
    ensures Truthy(height) && ParseFloat(height.value).None? ==> DimSize(height, width) == 1
    ensures Truthy(width) && ParseFloat(width.value).None? ==> DimSize(height, width) == 1
  {
    assert Trunc(1.0 * 1.0) == 1;
    if !Truthy(width) && Truthy(height) && ParseFloat(height.value).Some? {
      SizeOfOne(ParseFloat(height.value).value);
    }
    if !Truthy(height) && Truthy(width) && ParseFloat(width.value).Some? {
      SizeOfOne(ParseFloat(width.value).value);
    }
  }

  lemma SizeOfOne(x: real)
    ensures SizeOf(Some(x), Some(1.0)) == Trunc(x)
    ensures SizeOf(Some(1.0), Some(x)) == Trunc(x)
  {
    assert x * 1.0 == x && 1.0 * x == x;
  }

  /** Digit-string dimensions multiply exactly: `height="32" width="48"` gives 1536. */
  lemma DimSizeDigits(h: string, w: string)
    requires h != [] && AllDigits(h) && w != [] && AllDigits(w)
    ensures DimSize(Some(h), Some(w)) == DigitsValue(h) * DigitsValue(w)
  {
    DimensionDigits(h);
    DimensionDigits(w);
    SizeOfNaturals(DigitsValue(h), DigitsValue(w));
  }

  lemma DimensionDigits(h: string)
    requires h != [] && AllDigits(h)
    ensures Dimension(Some(h)) == Some(DigitsValue(h) as real)
  {
    ParseFloatDigits(h);
  }

  lemma SizeOfNaturals(a: nat, b: nat)
    ensures SizeOf(Some(a as real), Some(b as real)) == a * b
  {
    assert (a as real) * (b as real) == (a * b) as real;
  }

  lemma SizeOfNegative(a: nat)
    ensures SizeOf(Some(-(a as real)), Some(1.0)) == -(a as int)
  {
    assert -(a as real) * 1.0 == (-(a as int)) as real;
  }

  /** A negative dimension is kept: `height="-5"` with a missing width gives size -5. */
  lemma DimSizeNegative(h: string)
    requires |h| >= 2 && h[0] == '-' && AllDigits(h[1..])
    ensures DimSize(Some(h), None) == -(DigitsValue(h[1..]) as int)
  {
    ParseFloatNegative(h);
    SizeOfNegative(DigitsValue(h[1..]));
  }

  /** `re.findall(r"(\d+)x(\d+)", tag.get('sizes') or "0") or [(1, 1)]`, multiplied out. */
  function LinkSize(sizes: Option<string>): nat {
    PairProduct(if Truthy(sizes) then sizes.value else "0", {'x'})
  }

  /** Without a `sizes` attribute, or without an `NxM` in it, a link's size is 1. */
  lemma LinkSizeDefault(sizes: Option<string>)
    requires Truthy(sizes) ==> forall q :: 0 <= q < |sizes.value| ==> !PatternAt(sizes.value, q, {'x'})
    ensures LinkSize(sizes) == 1
  {
    if !Truthy(sizes) {
      assert !RunMatch("0", 0, {'x'});
      RunMatchIsPattern("0", 0, {'x'});
    }
  }

  // ---------------------------------------------------------------------------
  // get_by_img
  // ---------------------------------------------------------------------------

  /** The rows `get_by_img` appends for an `<img>` with attributes `tag`. */
  function ImgRows(tag: Attrs, website: string): seq<Row> {
    var url := Get(tag, "src");
    if !Truthy(url) then []
    else [Row(website, Get(tag, "alt"), url.value, Img, DimSize(Get(tag, "height"), Get(tag, "width")))]
  }

  /**
   * An `<img>` gives at most one row, exactly when its `src` is non-empty: the
   * row records the page, `alt` as label, `src` as URL and the inferred size.
   */
  lemma ImgRowsMeaning(tag: Attrs, website: string)
    ensures var r := ImgRows(tag, website);
      && |r| <= 1
      && (r == [] <==> !Truthy(Get(tag, "src")))
      && (r != [] ==>
        && r[0].source == Img && r[0].website == website
        && r[0].ref == Get(tag, "alt") && Some(r[0].url) == Get(tag, "src")
        && r[0].size == DimSize(Get(tag, "height"), Get(tag, "width")))
  {
  }

  // ---------------------------------------------------------------------------
  // get_by_a
  // ---------------------------------------------------------------------------

  /** `v and v.lower().endswith(self.formats)` */
  predicate Qualifies(v: Option<string>) {
    Truthy(v) && EndsWithFormat(Lower(v.value))
  }

  /** The `src` / `data-src` / `data-lazy-src` cascade of `get_by_a`, lower-cased. */
  function AnchorUrl(img: Attrs): Option<string> {
    var src, data, lazy := Get(img, "src"), Get(img, "data-src"), Get(img, "data-lazy-src");
    if Qualifies(src) then Some(Lower(src.value))
    else if Qualifies(data) then Some(Lower(data.value))
    else if Qualifies(lazy) then Some(Lower(lazy.value))
    else None
  }

  /** The attribute names `get_by_a` consults, in priority order. */
  const AnchorSources: seq<string> := ["src", "data-src", "data-lazy-src"]

  /**
   * The cascade picks the first qualifying attribute: the URL is the lower-cased
   * value of attribute `k`, no attribute before `k` qualifies, and the URL is
   * lower case and ends with an image extension; None exactly when none qualifies.
   */
  lemma AnchorUrlFirstQualifying(img: Attrs)
    ensures AnchorUrl(img).None? <==> forall k :: 0 <= k < 3 ==> !Qualifies(Get(img, AnchorSources[k]))
    ensures AnchorUrl(img).Some? ==>
      exists k :: (0 <= k < 3 && Qualifies(Get(img, AnchorSources[k]))
        && AnchorUrl(img).value == Lower(Get(img, AnchorSources[k]).value)
        && forall j :: 0 <= j < k ==> !Qualifies(Get(img, AnchorSources[j])))
    ensures AnchorUrl(img).Some? ==> IsLower(AnchorUrl(img).value) && EndsWithFormat(AnchorUrl(img).value)
  {
    var src, data, lazy := Get(img, "src"), Get(img, "data-src"), Get(img, "data-lazy-src");
    assert AnchorSources[0] == "src" && AnchorSources[1] == "data-src" && AnchorSources[2] == "data-lazy-src";
    if Qualifies(src) {
      LowerIsLower(src.value);
      assert 0 < 3 && Qualifies(Get(img, AnchorSources[0]));
    } else if Qualifies(data) {
      LowerIsLower(data.value);
      assert Qualifies(Get(img, AnchorSources[1]));
    } else if Qualifies(lazy) {
      LowerIsLower(lazy.value);
      assert Qualifies(Get(img, AnchorSources[2]));
    }
  }

  /** The rows `get_by_a` appends for an anchor: nothing without a nested image or a qualifying URL. */
  function AnchorRows(tag: Element, website: string): seq<Row> {
    match tag.firstImg
    case None => []
    case Some(img) =>
      match AnchorUrl(img)
      case None => []
      case Some(url) =>
        [Row(website, Get(img, "alt"), url, AnchorImg, DimSize(Get(img, "height"), Get(img, "width")))]
  }

  /**
   * An anchor gives at most one row, exactly when it holds an image with a
   * qualifying URL: the row records the page, the image's `alt`, the URL the
   * cascade picked and the image's inferred size.
   */
  lemma AnchorRowsMeaning(tag: Element, website: string)
    ensures var r := AnchorRows(tag, website);
      && |r| <= 1
      && (r == [] <==> tag.firstImg.None? || AnchorUrl(tag.firstImg.value).None?)
      && (r != [] ==>
        && r[0].source == AnchorImg && r[0].website == website
        && r[0].ref == Get(tag.firstImg.value, "alt") && r[0].url == AnchorUrl(tag.firstImg.value).value
        && r[0].size == DimSize(Get(tag.firstImg.value, "height"), Get(tag.firstImg.value, "width")))
  {
  }

  // ---------------------------------------------------------------------------
  // get_by_link
  // ---------------------------------------------------------------------------

  /** What one `<link>` contributes: nothing, one row, or the IndexError of `rel[0]` on an empty `rel`. */
  datatype LinkStep = NoRow | OneRow(row: Row) | RelIndexError

  /**
   * `rel` is a multi-valued attribute: the parser hands over its whitespace tokens,
   * so `rel[0]` is the first token and raises when there is none.
   */
  function LinkOutcome(tag: Attrs, website: string): LinkStep {
    var rel, href := Get(tag, "rel"), Get(tag, "href");
    var size := LinkSize(Get(tag, "sizes"));
    if rel.Some? && href.Some? && HasMarker(href.value) then
      match FirstToken(rel.value)
      case None => RelIndexError
      case Some(first) => OneRow(Row(website, Some(first), href.value, Link, size))
    else NoRow
  }

  /**
   * A `<link>` yields a row exactly when `rel` and `href` are present, `href`
   * holds a marker (case-sensitively) and `rel` has a first token; the row's `ref`
   * is that token and its URL the raw `href`. It raises exactly when the same
   * holds except that `rel` has no token.
   */
  lemma LinkOutcomeCases(tag: Attrs, website: string)
    ensures var r := LinkOutcome(tag, website); var rel, href := Get(tag, "rel"), Get(tag, "href");
      && (r.OneRow? <==> (rel.Some? && href.Some? && HasMarker(href.value) && FirstToken(rel.value).Some?))
      && (r.RelIndexError? <==> (rel.Some? && href.Some? && HasMarker(href.value) && FirstToken(rel.value).None?))
      && (r.OneRow? ==> r.row == Row(website, FirstToken(rel.value), href.value, Link, LinkSize(Get(tag, "sizes"))))
  {
  }

  function StepRows(s: LinkStep): seq<Row> {
    if s.OneRow? then [s.row] else []
  }

  /** What one element of the page contributes to the `<link>` loop. */
  function StepOf(e: Element, website: string): LinkStep {
    if e.name == "link" then LinkOutcome(e.attrs, website) else NoRow
  }

  function Steps(doc: seq<Element>, website: string): (r: seq<LinkStep>)
    ensures |r| == |doc| && forall i :: 0 <= i < |doc| ==> r[i] == StepOf(doc[i], website)
  {
    seq(|doc|, i requires 0 <= i < |doc| => StepOf(doc[i], website))
  }

  /** The rows the `<link>` loop appends before it ends or raises, and whether it raised. */
  datatype Scan = Scan(rows: seq<Row>, raised: bool)

  /** Running the loop over the steps: rows accumulate until the first step that raises. */
  function ScanSteps(steps: seq<LinkStep>): Scan {
    if steps == [] then Scan([], false)
    else if steps[0].RelIndexError? then Scan([], true)
    else
      var rest := ScanSteps(steps[1..]);
      Scan(StepRows(steps[0]) + rest.rows, rest.raised)
  }

  /** `for tag in soup.find_all('link')`: the links of `doc` in document order. */
  function LinkScan(doc: seq<Element>, website: string): Scan {
    ScanSteps(Steps(doc, website))
  }

  /** One more step extends a scan that has not raised by what that step contributes. */
  lemma {:induction false} ScanStepsSnoc(steps: seq<LinkStep>, s: LinkStep)
    requires !ScanSteps(steps).raised
    ensures ScanSteps(steps + [s]) == Scan(ScanSteps(steps).rows + StepRows(s), s.RelIndexError?)
  {
    if steps == [] {
      assert [s][1..] == [];
    } else {
      assert (steps + [s])[1..] == steps[1..] + [s];
      ScanStepsSnoc(steps[1..], s);
      var rest := ScanSteps(steps[1..]).rows;
      assert StepRows(steps[0]) + (rest + StepRows(s)) == (StepRows(steps[0]) + rest) + StepRows(s);
    }
  }

  /** A scan raises exactly when one of its steps raises. */
  lemma {:induction false} ScanStepsRaises(steps: seq<LinkStep>)
    ensures ScanSteps(steps).raised <==> exists i :: 0 <= i < |steps| && steps[i].RelIndexError?
  {
    if steps != [] && !steps[0].RelIndexError? {
      ScanStepsRaises(steps[1..]);
      if ScanSteps(steps).raised {
        var i :| 0 <= i < |steps[1..]| && steps[1..][i].RelIndexError?;
        assert steps[i + 1].RelIndexError?;
      } else {
        forall i | 0 <= i < |steps| ensures !steps[i].RelIndexError? {
          if i > 0 { assert steps[i] == steps[1..][i - 1]; }
        }
      }
    }
  }

  /** Every row a scan appends is the row of one of its steps. */
  lemma {:induction false} ScanStepsRows(steps: seq<LinkStep>)
    ensures forall r :: r in ScanSteps(steps).rows ==> exists i :: 0 <= i < |steps| && steps[i] == OneRow(r)
  {
    if steps != [] && !steps[0].RelIndexError? {
      ScanStepsRows(steps[1..]);
      forall r | r in ScanSteps(steps).rows ensures exists i :: 0 <= i < |steps| && steps[i] == OneRow(r) {
        if r !in StepRows(steps[0]) {
          var i :| 0 <= i < |steps[1..]| && steps[1..][i] == OneRow(r);
          assert steps[i + 1] == OneRow(r);
        }
      }
    }
  }

  /** The `<link>` loop raises exactly when some `<link>` has `href` with a marker and a `rel` without tokens. */
  lemma LinkScanRaises(doc: seq<Element>, website: string)
    ensures LinkScan(doc, website).raised
      <==> exists i :: 0 <= i < |doc| && StepOf(doc[i], website).RelIndexError?
  {
    ScanStepsRaises(Steps(doc, website));
  }

  lemma LinkScanSnoc(doc: seq<Element>, e: Element, website: string)
    requires !LinkScan(doc, website).raised
    ensures LinkScan(doc + [e], website)
      == Scan(LinkScan(doc, website).rows + StepRows(StepOf(e, website)), StepOf(e, website).RelIndexError?)
  {
    assert Steps(doc + [e], website) == Steps(doc, website) + [StepOf(e, website)];
    ScanStepsSnoc(Steps(doc, website), StepOf(e, website));
  }

  /** Once a scan has raised, later steps are never looked at. */
  lemma {:induction false} ScanStepsStops(steps: seq<LinkStep>, more: seq<LinkStep>)
    requires ScanSteps(steps).raised
    ensures ScanSteps(steps + more) == ScanSteps(steps)
  {
    assert (steps + more)[0] == steps[0];
    if !steps[0].RelIndexError? {
      assert (steps + more)[1..] == steps[1..] + more;
      ScanStepsStops(steps[1..], more);
    }
  }

  lemma StepsAppend(a: seq<Element>, b: seq<Element>, website: string)
    ensures Steps(a + b, website) == Steps(a, website) + Steps(b, website)
  {
    var l, r := Steps(a + b, website), Steps(a, website) + Steps(b, website);
    forall i | 0 <= i < |l| ensures l[i] == r[i] {
      if i < |a| { assert (a + b)[i] == a[i]; } else { assert (a + b)[i] == b[i - |a|]; }
    }
  }

  /** The `<link>` loop ends at the first `<link>` that raises: the elements after it do not matter. */
  lemma LinkScanStops(doc: seq<Element>, n: nat, website: string)
    requires n <= |doc| && LinkScan(doc[..n], website).raised
    ensures LinkScan(doc, website) == LinkScan(doc[..n], website)
  {
    assert doc == doc[..n] + doc[n..];
    StepsAppend(doc[..n], doc[n..], website);
    ScanStepsStops(Steps(doc[..n], website), Steps(doc[n..], website));
  }

  // ---------------------------------------------------------------------------
  // The <a>/<img> walk of crawl
  // ---------------------------------------------------------------------------

  /** The rows one element of `find_all(['a', 'img'])` contributes. */
  function ElementRows(e: Element, website: string): seq<Row> {
    if e.name == "a" then AnchorRows(e, website)
    else if e.name == "img" then ImgRows(e.attrs, website)
    else []
  }

  /** The rows the `<a>`/`<img>` loop appends, in document order. */
  function TagRows(doc: seq<Element>, website: string): seq<Row> {
    if doc == [] then [] else ElementRows(doc[0], website) + TagRows(doc[1..], website)
  }

  lemma {:induction false} TagRowsSnoc(doc: seq<Element>, e: Element, website: string)
    ensures TagRows(doc + [e], website) == TagRows(doc, website) + ElementRows(e, website)
  {
    if doc == [] {
      assert [e][1..] == [];
    } else {
      assert (doc + [e])[1..] == doc[1..] + [e];
      TagRowsSnoc(doc[1..], e, website);
    }
  }

  // ---------------------------------------------------------------------------
  // What every collected row satisfies
  // ---------------------------------------------------------------------------

  /**
   * The per-source shape of a collected row: an `<img>` row has a non-empty URL;
   * an `<a> <img>` row a lower-case URL ending in an image extension; a `<link>`
   * row a URL holding a marker, a whitespace-free non-empty `ref` and a size of
   * at least 0.
   */
  predicate WellFormed(r: Row) {
    match r.source
    case Img => r.url != ""
    case AnchorImg => IsLower(r.url) && EndsWithFormat(r.url)
    case Link => HasMarker(r.url) && r.ref.Some? && r.ref.value != "" && NoSpace(r.ref.value) && r.size >= 0
  }

  predicate AllWellFormed(rows: seq<Row>, website: string) {
    forall i :: 0 <= i < |rows| ==> WellFormed(rows[i]) && rows[i].website == website
  }

  /** Every row either walk produces is well formed and carries the page's bare URL. */
  lemma {:induction false} CollectedWellFormed(doc: seq<Element>, website: string)
    ensures AllWellFormed(TagRows(doc, website), website)
    ensures AllWellFormed(LinkScan(doc, website).rows, website)
  {
    var steps := Steps(doc, website);
    ScanStepsRows(steps);
    forall r | r in LinkScan(doc, website).rows ensures WellFormed(r) && r.website == website {
      var i :| 0 <= i < |steps| && steps[i] == OneRow(r);
      LinkOutcomeCases(doc[i].attrs, website);
    }
    TagRowsWellFormed(doc, website);
  }

  lemma {:induction false} TagRowsWellFormed(doc: seq<Element>, website: string)
    ensures AllWellFormed(TagRows(doc, website), website)
  {
    if doc != [] {
      TagRowsWellFormed(doc[1..], website);
      var e := doc[0];
      if e.name == "a" && e.firstImg.Some? {
        AnchorUrlFirstQualifying(e.firstImg.value);
      }
    }
  }

  /** `<a> <img>` and `<link>` rows always carry a marker in their URL; only `<img>` rows may lack one. */
  lemma MarkerUnlessImg(r: Row)
    requires WellFormed(r) && r.source != Img
    ensures HasMarker(r.url)
  {
    if r.source == AnchorImg {
      FormatIsMarker(r.url);
    }
  }
}
